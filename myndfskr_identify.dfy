/**
 * Identifying an agency regulation (`myndfskr.py`): the skos:altLabel of
 * a collection fragment (`_basefile_frag_to_altlabel`), the basefile of a
 * lagen.nu URI (`basefile_from_uri`) and the metadata a basefile spells
 * (`metadata_from_basefile`).
 */
module MyndIdentify {
  import opened Wrappers
  import opened PyStr
  import opened MyndBasefile

  // ------------------------------------------------------------ altLabel

  /** `_basefile_frag_to_altlabel`: the five collections whose skos:altLabel differs from the upper-cased fragment. */
  function AltLabel(frag: string): string
  {
    if frag == "ELSAKFS" then "ELSÄK-FS"
    else if frag == "HSLFFS" then "HSLF-FS"
    else if frag == "FOHMFS" then "FoHMFS"
    else if frag == "RAFS" then "RA-FS"
    else if frag == "SVKFS" then "SvKFS"
    else frag
  }

  predicate Renamed(frag: string)
  {
    frag == "ELSAKFS" || frag == "HSLFFS" || frag == "FOHMFS" || frag == "RAFS" || frag == "SVKFS"
  }

  /** An upper-cased basefile fragment: no hyphen and no lower-case letter. */
  predicate PlainFrag(f: string)
  {
    forall i :: 0 <= i < |f| ==> f[i] != '-' && !IsLowerChar(f[i])
  }

  /** Each renamed label has a hyphen or a lower-case letter. */
  lemma RenamedLabelNotPlain(frag: string)
    ensures Renamed(frag) ==> !PlainFrag(AltLabel(frag))
  {
    if frag == "ELSAKFS" {
      assert AltLabel(frag)[5] == '-';
    } else if frag == "HSLFFS" {
      assert AltLabel(frag)[4] == '-';
    } else if frag == "FOHMFS" {
      assert IsLowerChar(AltLabel(frag)[1]);
    } else if frag == "RAFS" {
      assert AltLabel(frag)[2] == '-';
    } else if frag == "SVKFS" {
      assert IsLowerChar(AltLabel(frag)[1]);
    }
  }

  /** The five labels differ from one another. */
  lemma RenamedLabelsDistinct(a: string, b: string)
    ensures Renamed(a) && Renamed(b) && AltLabel(a) == AltLabel(b) ==> a == b
  {
    if Renamed(a) && Renamed(b) && AltLabel(a) == AltLabel(b) {
      var l := AltLabel(a);
      assert |l| == |AltLabel(b)| && l[0] == AltLabel(b)[0];
    }
  }

  /** Distinct fragments, as basefiles give them, map to distinct altLabels. */
  lemma AltLabelInjective(a: string, b: string)
    requires PlainFrag(a) && PlainFrag(b)
    requires AltLabel(a) == AltLabel(b)
    ensures a == b
  {
    RenamedLabelNotPlain(a);
    RenamedLabelNotPlain(b);
    RenamedLabelsDistinct(a, b);
  }

  // ------------------------------------------------------------ basefile_from_uri

  /** At least one of the collections, after `prefix`, starts the basefile. */
  predicate StartsWithCollection(b: string, prefix: string, fs: seq<string>)
  {
    exists i :: 0 <= i < |fs| && StartsWith(b, prefix + fs[i])
  }

  /**
   * `MyndFskrBase.basefile_from_uri`. The inherited method's basefile for
   * the URI is `inherited`. A consolidated version "X/konsolidering/DATE"
   * becomes "konsolidering/X", hyphens go, and the result must start with
   * one of the collections (after "konsolidering/"), else `None`.
   */
  function BasefileFromUri(inherited: Option<string>, fs: seq<string>): Option<string>
  {
    match inherited
    case None => None
    case Some(b) =>
      var consolidated := Contains(b, "/konsolidering/");
      var prefix := if consolidated then "konsolidering/" else "";
      var moved := if consolidated then prefix + Split(b, "/konsolidering/")[0] else b;
      var dehyphenated := Replace(moved, "-", "");
      if StartsWithCollection(dehyphenated, prefix, fs) then Some(dehyphenated) else None
  }

  /** A basefile from a URI has no hyphen and starts with a collection, after "konsolidering/" when the URI names a consolidated version. */
  lemma UriBasefileShape(inherited: Option<string>, fs: seq<string>)
    ensures BasefileFromUri(inherited, fs).Some? ==>
      inherited.Some? && Free(BasefileFromUri(inherited, fs).value, '-') &&
      StartsWithCollection(BasefileFromUri(inherited, fs).value,
        if Contains(inherited.value, "/konsolidering/") then "konsolidering/" else "", fs)
  {
    if inherited.Some? {
      var b := inherited.value;
      var prefix := if Contains(b, "/konsolidering/") then "konsolidering/" else "";
      var moved := if Contains(b, "/konsolidering/") then prefix + Split(b, "/konsolidering/")[0] else b;
      ReplaceRemoves(moved, '-');
    }
  }

  /** A basefile "collection/year:number" in canonical form. */
  predicate CanonicalBasefile(c: string, y: string, n: string, fs: seq<string>)
  {
    c in fs && NoSep(c) && IsDigits(y) && IsDigits(n)
  }

  /** No '/' or '-' in a canonical basefile but the one '/' after the collection. */
  lemma CanonicalChars(c: string, y: string, n: string, fs: seq<string>)
    requires CanonicalBasefile(c, y, n, fs)
    ensures forall i :: 0 <= i < |c + "/" + y + ":" + n| && i != |c| ==> (c + "/" + y + ":" + n)[i] != '/'
    ensures Free(c + "/" + y + ":" + n, '-')
  {
    var x := c + "/" + y + ":" + n;
    forall i | 0 <= i < |x|
      ensures x[i] != '-' && (i != |c| ==> x[i] != '/')
    {
      if i < |c| {
        assert x[i] == c[i];
      } else if |c| < i <= |c| + |y| {
        assert x[i] == y[i - |c| - 1];
      } else if i > |c| + |y| + 1 {
        assert x[i] == n[i - |c| - |y| - 2];
      }
    }
  }

  /** "/konsolidering/" cannot occur where there is only one '/'. */
  lemma OneSlashNotConsolidated(x: string, j: nat)
    requires j < |x| && forall i :: 0 <= i < |x| && i != j ==> x[i] != '/'
    ensures !Contains(x, "/konsolidering/")
  {
    var t := "/konsolidering/";
    forall k: nat
      ensures !OccursAt(x, t, k)
    {
      if k + |t| <= |x| {
        assert x[k..k + |t|][0] == x[k] && x[k..k + |t|][14] == x[k + 14];
      }
    }
  }

  /** The URI of a canonical basefile gives that basefile back. */
  lemma UriOfCanonical(c: string, y: string, n: string, fs: seq<string>)
    requires CanonicalBasefile(c, y, n, fs)
    ensures BasefileFromUri(Some(c + "/" + y + ":" + n), fs) == Some(c + "/" + y + ":" + n)
  {
    var x := c + "/" + y + ":" + n;
    CanonicalChars(c, y, n, fs);
    OneSlashNotConsolidated(x, |c|);
    FirstCharAbsent(x, "-");
    ReplaceAbsent(x, "-", "");
    assert "" + c <= x;
    var i :| 0 <= i < |fs| && fs[i] == c;
    assert StartsWith(x, "" + fs[i]);
  }

  /** Where the only '/' of `x` is not followed by "k", "/konsolidering/" first occurs right after `x`. */
  lemma ConsolidationAfter(x: string, date: string, j: nat)
    requires j + 1 < |x| && x[j + 1] != 'k'
    requires forall i :: 0 <= i < |x| && i != j ==> x[i] != '/'
    ensures IndexOf(x + "/konsolidering/" + date, "/konsolidering/") == Some(|x|)
  {
    var t := "/konsolidering/";
    var s := x + t + date;
    assert s[|x|..|x| + |t|] == t;
    forall k: nat | k < |x|
      ensures !OccursAt(s, t, k)
    {
      if k + |t| <= |s| {
        assert s[k..k + |t|][0] == s[k] && s[k..k + |t|][1] == s[k + 1];
        assert s[k] == x[k];
        if k + 1 < |x| {
          assert s[k + 1] == x[k + 1];
        }
      }
    }
    IndexOfAt(s, t, |x|);
  }

  /** The URI of a consolidated version, "c/y:n/konsolidering/DATE", gives "konsolidering/c/y:n". */
  lemma UriOfConsolidated(c: string, y: string, n: string, date: string, fs: seq<string>)
    requires CanonicalBasefile(c, y, n, fs)
    ensures BasefileFromUri(Some(c + "/" + y + ":" + n + "/konsolidering/" + date), fs)
      == Some("konsolidering/" + (c + "/" + y + ":" + n))
  {
    var x := c + "/" + y + ":" + n;
    var s := x + "/konsolidering/" + date;
    CanonicalChars(c, y, n, fs);
    assert x[|c| + 1] == y[0];
    ConsolidationAfter(x, date, |c|);
    assert Split(s, "/konsolidering/")[0] == x;
    assert c <= x;
    ConsolidatedKept(x, c, fs);
  }

  /** "konsolidering/" before a hyphen-free basefile that starts with a collection is kept as it is. */
  lemma ConsolidatedKept(x: string, c: string, fs: seq<string>)
    requires Free(x, '-') && c <= x && c in fs
    ensures Replace("konsolidering/" + x, "-", "") == "konsolidering/" + x
    ensures StartsWithCollection("konsolidering/" + x, "konsolidering/", fs)
  {
    var moved := "konsolidering/" + x;
    forall i | 0 <= i < |moved| ensures moved[i] != '-' {
      if i >= 14 {
        assert moved[i] == x[i - 14];
      }
    }
    FirstCharAbsent(moved, "-");
    ReplaceAbsent(moved, "-", "");
    var i :| 0 <= i < |fs| && fs[i] == c;
    assert "konsolidering/" + fs[i] <= moved;
  }

  // ------------------------------------------------------------ metadata_from_basefile

  /**
   * What `MyndFskrBase.metadata_from_basefile` derives from the basefile:
   * for a consolidated version the basefile it consolidates (to which
   * `canonical_uri` is applied), otherwise the collection's altLabel (which
   * `lookup_resource` resolves); and the year edition and serial number.
   */
  datatype FsMetadata = FsMetadata(consolidates: Option<string>, collectionLabel: Option<string>,
                                   arsutgava: string, lopnummer: string)

  /**
   * `MyndFskrBase.metadata_from_basefile`; `None` for the `AssertionError`
   * of a basefile without "/" and the `ValueError` of an unpacking into
   * other than two segments, or of a number part without ":".
   */
  function MetadataFromBasefile(basefile: string): Option<FsMetadata>
  {
    if !Contains(basefile, "/") then None
    else
      var segments := Split(basefile, "/");
      var consolidated := |segments| > 2 && segments[0] == "konsolidering";
      var rest := if consolidated then segments[1..] else segments;
      if |rest| != 2 || !Contains(rest[1], ":") then None
      else
        var parts := SplitOnce(rest[1], ":");
        Some(FsMetadata(
          if consolidated then Some(SplitOnce(basefile, "/")[1]) else None,
          if consolidated then None else Some(AltLabel(Upper(segments[0]))),
          parts[0], parts[1]))
  }

  /** "y:n" splits at its ":" into the year edition and the number. */
  lemma YearNumberParts(y: string, n: string)
    requires NoSep(y)
    ensures Contains(y + ":" + n, ":") && SplitOnce(y + ":" + n, ":") == [y, n]
  {
    IndexOfChar(y, ':', n);
    var s := y + ":" + n;
    assert s[..|y|] == y && s[|y| + 1..] == n;
  }

  /** "c/rest" with no other '/' splits into its two segments. */
  lemma TwoSegments(c: string, rest: string)
    requires NoSep(c) && Free(rest, '/')
    ensures Contains(c + "/" + rest, "/") && Split(c + "/" + rest, "/") == [c, rest]
  {
    var x := c + "/" + rest;
    IndexOfChar(c, '/', rest);
    SplitAtChar(c, '/', rest);
    SplitNoChar(rest, '/');
  }

  /** The metadata of "collection/year:number" names the collection's altLabel, the year and the number. */
  lemma MetadataOfBasefile(c: string, y: string, n: string)
    requires NoSep(c) && NoSep(y) && NoSep(n)
    ensures MetadataFromBasefile(c + "/" + y + ":" + n) == Some(FsMetadata(None, Some(AltLabel(Upper(c))), y, n))
  {
    var rest := y + ":" + n;
    YearNumberNoSlash(y, n);
    TwoSegments(c, rest);
    assert c + "/" + y + ":" + n == c + "/" + rest;
    YearNumberParts(y, n);
  }

  /** "y:n" has no '/'. */
  lemma YearNumberNoSlash(y: string, n: string)
    requires NoSep(y) && NoSep(n)
    ensures Free(y + ":" + n, '/')
  {
    var rest := y + ":" + n;
    forall i | 0 <= i < |rest| ensures rest[i] != '/' {
      if i > |y| {
        assert rest[i] == n[i - |y| - 1];
      }
    }
  }

  /** "konsolidering/c/rest" splits into its three segments, and after its first '/' into "c/rest". */
  lemma ConsolidatedSegments(c: string, rest: string)
    requires NoSep(c) && Free(rest, '/')
    ensures Contains("konsolidering/" + (c + "/" + rest), "/")
    ensures Split("konsolidering/" + (c + "/" + rest), "/") == ["konsolidering", c, rest]
    ensures SplitOnce("konsolidering/" + (c + "/" + rest), "/")[1] == c + "/" + rest
  {
    var k := "konsolidering";
    var x := c + "/" + rest;
    assert "konsolidering/" + x == k + ['/'] + x;
    assert Free(k, '/');
    SplitAtChar(k, '/', x);
    IndexOfChar(k, '/', x);
    TwoSegments(c, rest);
    var b := k + ['/'] + x;
    assert b[|k| + 1..] == x;
  }

  /** The metadata of "konsolidering/collection/year:number" names the basefile consolidated, the year and the number. */
  lemma MetadataOfConsolidated(c: string, y: string, n: string)
    requires NoSep(c) && NoSep(y) && NoSep(n)
    ensures MetadataFromBasefile("konsolidering/" + (c + "/" + y + ":" + n))
      == Some(FsMetadata(Some(c + "/" + y + ":" + n), None, y, n))
  {
    var rest := y + ":" + n;
    YearNumberNoSlash(y, n);
    assert c + "/" + y + ":" + n == c + "/" + rest;
    ConsolidatedSegments(c, rest);
    YearNumberParts(y, n);
  }
}
