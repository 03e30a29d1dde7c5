/**
 * Basefiles of agency regulations (`MyndFskrBase.sanitize_basefile` and
 * the overrides of EIFS, ELSAKFS, FFFS, LVFS, MIGRFS and NFS,
 * `_basefile_frag_to_altlabel`, `basefile_from_uri`,
 * `metadata_from_basefile` and `SOSFS._basefile_from_text`). A basefile
 * names a regulation as collection "/" year ":" number, such as
 * "afs/2014:39"; consolidated versions are prefixed "konsolidering/".
 */
module MyndBasefile {
  import opened Wrappers
  import opened PyStr

  // ------------------------------------------------------------ segments

  /** The characters of the class `[ \./:_-]`. */
  predicate IsSep(c: char)
  {
    c == ' ' || c == '.' || c == '/' || c == ':' || c == '_' || c == '-'
  }

  predicate NoSep(s: string)
  {
    forall i :: 0 <= i < |s| ==> !IsSep(s[i])
  }

  /** Length of the run of non-separators that starts `s`. */
  function PieceLen(s: string): (k: nat)
    ensures k <= |s| && (k < |s| ==> IsSep(s[k]))
    ensures NoSep(s[..k])
  {
    if |s| > 0 && !IsSep(s[0]) then
      var k := 1 + PieceLen(s[1..]);
      assert s[..k] == [s[0]] + s[1..][..k - 1];
      k
    else 0
  }

  /** Length of the run of separators that starts `s`. */
  function SepLen(s: string): (k: nat)
    ensures k <= |s| && (k < |s| ==> !IsSep(s[k]))
    ensures |s| > 0 && IsSep(s[0]) ==> k >= 1
  {
    if |s| > 0 && IsSep(s[0]) then 1 + SepLen(s[1..]) else 0
  }

  /** `re.split('[ \./:_-]+', s)`: the pieces between maximal runs of separators. */
  function Segments(s: string): (r: seq<string>)
    ensures |r| >= 1
    ensures forall i :: 0 <= i < |r| ==> NoSep(r[i])
    decreases |s|
  {
    var k := PieceLen(s);
    if k == |s| then
      assert s[..k] == s;
      [s]
    else [s[..k]] + Segments(s[k + SepLen(s[k..])..])
  }

  /** A piece without separators is one segment. */
  lemma SegmentsOne(a: string)
    requires NoSep(a)
    ensures Segments(a) == [a]
  {
  }

  /** The run of non-separators at the start of "a c rest" is `a`. */
  lemma PieceLenCons(a: string, c: char, rest: string)
    requires NoSep(a) && IsSep(c)
    ensures PieceLen(a + [c] + rest) == |a|
  {
    var s := a + [c] + rest;
    assert s[|a|] == c && s[..|a|] == a;
  }

  /** A single separator before a rest that does not start with one. */
  lemma SepLenOne(c: char, rest: string)
    requires IsSep(c)
    requires rest == [] || !IsSep(rest[0])
    ensures SepLen([c] + rest) == 1
  {
    var t := [c] + rest;
    assert t[1..] == rest;
  }

  /** A piece, one separator, and a rest that does not start with one: the piece is the first segment. */
  lemma SegmentsCons(a: string, c: char, rest: string)
    requires NoSep(a) && IsSep(c)
    requires rest == [] || !IsSep(rest[0])
    ensures Segments(a + [c] + rest) == [a] + Segments(rest)
  {
    var s := a + [c] + rest;
    PieceLenCons(a, c, rest);
    assert s[..|a|] == a && s[|a|..] == [c] + rest;
    SepLenOne(c, rest);
    assert s[|a| + 1..] == rest;
  }

  /** Three pieces joined by single separators give those three segments. */
  lemma SegmentsThree(a: string, c1: char, b: string, c2: char, n: string)
    requires NoSep(a) && NoSep(b) && NoSep(n) && IsSep(c1) && IsSep(c2)
    requires b != [] && n != []
    ensures Segments(a + [c1] + b + [c2] + n) == [a, b, n]
  {
    SegmentsOne(n);
    SegmentsCons(b, c2, n);
    assert a + [c1] + b + [c2] + n == a + [c1] + (b + [c2] + n);
    SegmentsCons(a, c1, b + [c2] + n);
  }

  // ------------------------------------------------------------ sanitize_basefile

  /** `str(int(piece))`: the number without leading zeros; `None` for the `ValueError`. */
  function Renumber(piece: string): (r: Option<string>)
    ensures r.Some? <==> PyInt(piece).Some?
  {
    match PyInt(piece)
    case None => None
    case Some(v) => Some(IntToString(v))
  }

  /** The basefile the segments spell, before the collection check; `None` for a `ValueError`. */
  function Assemble(segs: seq<string>): Option<string>
    requires |segs| >= 1
  {
    match Renumber(segs[|segs| - 1])
    case None => None
    case Some(n) =>
      if |segs| == 2 then Some(segs[0] + ":" + n)
      else if |segs| == 3 then Some(segs[0] + "/" + segs[1] + ":" + n)
      else if |segs| == 4 && segs[1] == "fs" then Some(segs[0] + segs[1] + "/" + segs[2] + ":" + n)
      else None
  }

  /** The basefile starts with one of the collections and a "/". */
  predicate Listed(b: string, fs: seq<string>)
  {
    exists f :: f in fs && StartsWith(b, f + "/")
  }

  /**
   * `MyndFskrBase.sanitize_basefile` for a repository whose collections
   * (`forfattningssamlingar()`) are `fs`: lower-cased, split into segments,
   * the number renumbered, reassembled, and prefixed with the first
   * collection unless it already names one. `None` stands for `ValueError`.
   */
  function SanitizeBasefile(basefile: string, fs: seq<string>): Option<string>
    requires fs != []
  {
    match Assemble(Segments(Lower(basefile)))
    case None => None
    case Some(b) => Some(if Listed(b, fs) then b else fs[0] + "/" + b)
  }

  /** Every sanitised basefile starts with one of the repository's collections. */
  lemma SanitizedListed(basefile: string, fs: seq<string>)
    requires fs != []
    requires SanitizeBasefile(basefile, fs).Some?
    ensures Listed(SanitizeBasefile(basefile, fs).value, fs)
  {
    var b := Assemble(Segments(Lower(basefile))).value;
    if !Listed(b, fs) {
      assert StartsWith(fs[0] + "/" + b, fs[0] + "/");
    }
  }

  /** A number piece `int` rejects, or a segment count other than 2, 3 or 4-with-"fs", raises `ValueError`. */
  lemma AssembleRejects(segs: seq<string>)
    requires |segs| >= 1
    ensures Assemble(segs).None? <==>
      PyInt(segs[|segs| - 1]).None? || !(|segs| == 2 || |segs| == 3 || (|segs| == 4 && segs[1] == "fs"))
  {
  }

  /** No upper-case letter: `lower()` leaves the string alone. */
  predicate LowerCase(s: string)
  {
    forall i :: 0 <= i < |s| ==> !IsUpperChar(s[i])
  }

  lemma LowerFixed(s: string)
    requires LowerCase(s)
    ensures Lower(s) == s
  {
  }

  lemma LowerAppend(a: string, b: string)
    ensures Lower(a + b) == Lower(a) + Lower(b)
  {
  }

  /** `str(int(n))` for a string of digits. */
  lemma RenumberDigits(n: string)
    requires IsDigits(n)
    ensures Renumber(n) == Some(NatToString(DigitsValue(n)))
  {
    StripTrimmed(n);
  }

  /** A canonical number ("1", "39", never "01") is rendered as itself. */
  predicate Canonical(n: string)
  {
    IsDigits(n) && (n[0] == '0' ==> n == "0")
  }

  lemma {:induction false} CanonicalRoundTrip(n: string)
    requires Canonical(n)
    ensures NatToString(DigitsValue(n)) == n
    decreases |n|
  {
    var v := DigitsValue(n);
    if |n| == 1 {
      assert n == [n[0]];
    } else {
      var m := n[..|n| - 1];
      assert m[0] == n[0] && IsDigits(m);
      assert Canonical(m);
      CanonicalRoundTrip(m);
      LeadingDigitPositive(n);
      assert v / 10 == DigitsValue(m) && v % 10 == DigitValue(n[|n| - 1]);
      assert NatToString(v) == NatToString(v / 10) + [DigitChar(v % 10)];
      assert n == m + [n[|n| - 1]];
    }
  }

  /** A canonical number of two or more digits is at least 10. */
  lemma {:induction false} LeadingDigitPositive(n: string)
    requires Canonical(n) && |n| >= 2
    ensures DigitsValue(n) >= 10
    decreases |n|
  {
    var m := n[..|n| - 1];
    assert m[0] == n[0] && IsDigits(m);
    if |m| >= 2 {
      LeadingDigitPositive(m);
    } else {
      assert m == [n[0]] && n[0] != '0';
    }
  }

  /** `lower()` keeps a string free of separators. */
  lemma LowerNoSep(u: string)
    requires NoSep(u)
    ensures NoSep(Lower(u)) && LowerCase(Lower(u))
  {
  }

  /** The segments of a collection name, a separator and year:number. */
  lemma ThreeSegments(u: string, sep: char, y: string, n: string)
    requires NoSep(u) && IsSep(sep) && y != [] && NoSep(y) && LowerCase(y) && IsDigits(n)
    ensures Segments(Lower(u + [sep] + y + ":" + n)) == [Lower(u), y, n]
  {
    var tail := [sep] + y + ":" + n;
    assert u + [sep] + y + ":" + n == u + tail;
    assert LowerCase(tail);
    LowerFixed(tail);
    LowerAppend(u, tail);
    LowerNoSep(u);
    assert NoSep(n);
    assert Lower(u) + tail == Lower(u) + [sep] + y + [':'] + n;
    SegmentsThree(Lower(u), sep, y, ':', n);
  }

  /** Three segments ending in digits are assembled into "a/y:number", the number without leading zeros. */
  lemma AssembleThree(a: string, y: string, n: string)
    requires IsDigits(n)
    ensures Assemble([a, y, n]) == Some(a + "/" + y + ":" + NatToString(DigitsValue(n)))
  {
    var segs := [a, y, n];
    assert |segs| == 3 && segs[0] == a && segs[1] == y && segs[|segs| - 1] == n;
    RenumberDigits(n);
  }

  /** Two segments ending in digits are assembled into "y:number". */
  lemma AssembleTwo(y: string, n: string)
    requires IsDigits(n)
    ensures Assemble([y, n]) == Some(y + ":" + NatToString(DigitsValue(n)))
  {
    RenumberDigits(n);
  }

  /** Once the segments are assembled, only the collection check remains. */
  lemma SanitizeAssembled(basefile: string, fs: seq<string>, b: string)
    requires fs != [] && Assemble(Segments(Lower(basefile))) == Some(b)
    ensures SanitizeBasefile(basefile, fs) == Some(if Listed(b, fs) then b else fs[0] + "/" + b)
  {
  }

  /** A listed collection, a separator and year:number: "collection/year:number", without leading zeros. */
  lemma SanitizeThree(u: string, sep: char, y: string, n: string, fs: seq<string>)
    requires NoSep(u) && Lower(u) in fs && IsSep(sep)
    requires y != [] && NoSep(y) && LowerCase(y) && IsDigits(n)
    ensures SanitizeBasefile(u + [sep] + y + ":" + n, fs) == Some(Lower(u) + "/" + y + ":" + NatToString(DigitsValue(n)))
  {
    var c := Lower(u);
    ThreeSegments(u, sep, y, n);
    AssembleThree(c, y, n);
    var m := NatToString(DigitsValue(n));
    ListedPrefix(c, y, m, fs);
    SanitizeAssembled(u + [sep] + y + ":" + n, fs, c + "/" + y + ":" + m);
  }

  /** SanitizeThree for a collection that is already lower case. */
  lemma SanitizeThreeLower(c: string, sep: char, y: string, n: string, fs: seq<string>)
    requires NoSep(c) && LowerCase(c) && c in fs && IsSep(sep)
    requires y != [] && NoSep(y) && LowerCase(y) && IsDigits(n)
    ensures SanitizeBasefile(c + [sep] + y + ":" + n, fs) == Some(c + "/" + y + ":" + NatToString(DigitsValue(n)))
  {
    LowerFixed(c);
    SanitizeThree(c, sep, y, n, fs);
  }

  /** A listed collection, "/" and the rest of a basefile. */
  lemma ListedPrefix(c: string, y: string, m: string, fs: seq<string>)
    requires c in fs
    ensures Listed(c + "/" + y + ":" + m, fs)
  {
    var p := c + "/";
    assert p <= p + y && p + y <= p + y + ":" && p + y + ":" <= p + y + ":" + m;
    assert StartsWith(c + "/" + y + ":" + m, p);
  }

  /** An unlisted first segment, a separator and year:number: the first collection is put in front. */
  lemma SanitizeThreeUnlisted(u: string, sep: char, y: string, n: string, fs: seq<string>)
    requires fs != [] && NoSep(u) && LowerCase(u) && IsSep(sep)
    requires y != [] && NoSep(y) && LowerCase(y) && IsDigits(n)
    requires !Listed(u + "/" + y + ":" + NatToString(DigitsValue(n)), fs)
    ensures SanitizeBasefile(u + [sep] + y + ":" + n, fs) == Some(fs[0] + "/" + (u + "/" + y + ":" + NatToString(DigitsValue(n))))
  {
    ThreeSegments(u, sep, y, n);
    LowerFixed(u);
    AssembleThree(u, y, n);
    SanitizeAssembled(u + [sep] + y + ":" + n, fs, u + "/" + y + ":" + NatToString(DigitsValue(n)));
  }

  /** A basefile collection/year:number, with the collection listed, is sanitised to itself. */
  lemma SanitizeCanonical(c: string, y: string, n: string, fs: seq<string>)
    requires c in fs && NoSep(c) && LowerCase(c)
    requires y != [] && NoSep(y) && LowerCase(y) && Canonical(n)
    ensures SanitizeBasefile(c + "/" + y + ":" + n, fs) == Some(c + "/" + y + ":" + n)
  {
    SanitizeThreeLower(c, '/', y, n, fs);
    CanonicalRoundTrip(n);
  }

  /** The segments of a lower-case year:number. */
  lemma YearNumberSegments(y: string, n: string)
    requires y != [] && NoSep(y) && LowerCase(y) && IsDigits(n)
    ensures Segments(Lower(y + ":" + n)) == [y, n]
  {
    var b := y + ":" + n;
    assert LowerCase(b);
    LowerFixed(b);
    assert NoSep(n);
    SegmentsOne(n);
    SegmentsCons(y, ':', n);
  }

  /** A year:number, never a collection: no collection name and "/" starts it. */
  lemma YearNumberUnlisted(y: string, n: string, fs: seq<string>)
    requires NoSep(y) && NoSep(n)
    ensures !Listed(y + ":" + n, fs)
  {
    var r := y + ":" + n;
    forall f | f in fs && |f| < |r|
      ensures r[|f|] != '/'
    {
      if |f| < |y| {
        assert r[|f|] == y[|f|];
      } else if |f| > |y| {
        assert r[|f|] == n[|f| - |y| - 1];
      }
    }
  }

  /** A year:number pair (the number in digits, possibly zero-padded) gets the first collection and loses its zeros. */
  lemma SanitizeYearNumber(y: string, n: string, fs: seq<string>)
    requires fs != [] && y != [] && NoSep(y) && LowerCase(y) && IsDigits(n)
    ensures SanitizeBasefile(y + ":" + n, fs) == Some(fs[0] + "/" + (y + ":" + NatToString(DigitsValue(n))))
  {
    YearNumberSegments(y, n);
    AssembleTwo(y, n);
    var m := NatToString(DigitsValue(n));
    assert NoSep(m);
    YearNumberUnlisted(y, m, fs);
    SanitizeAssembled(y + ":" + n, fs, y + ":" + m);
  }

  // ------------------------------------------------------------ the repositories

  /**
   * The repositories whose basefile handling differs from the base class,
   * and any other one by its collections (`forfattningssamlingar()`, which
   * is `[alias]` unless overridden).
   */
  datatype Agency = Plain(collections: seq<string>) | Eifs | Elsakfs | Fffs | Lvfs | Migrfs | Nfs | Sosfs | Pmfs

  predicate ValidAgency(a: Agency)
  {
    a.Plain? ==> a.collections != []
  }

  function Collections(a: Agency): (fs: seq<string>)
    requires ValidAgency(a)
    ensures fs != []
  {
    match a
    case Plain(fs) => fs
    case Eifs => ["eifs"]
    case Elsakfs => ["elsakfs"]
    case Fffs => ["fffs", "bffs"]
    case Lvfs => ["hslffs", "lvfs"]
    case Migrfs => ["migrfs", "sivfs"]
    case Nfs => ["nfs", "snfs"]
    case Sosfs => ["hslffs", "sosfs"]
    case Pmfs => ["pmfs", "rpsfs"]
  }

  /** FFFS as written: `basefile.isdigit` is never called, and a bound method is always true. */
  function FffsColonAsWritten(b: string): string
  {
    if |b| > 4 then b[..4] + ":" + b[4..] else b
  }

  /** FFFS as the comment intends: a ":" after the year of an all-digit basefile such as "201412". */
  function FffsColon(b: string): string
  {
    if IsDigits(b) && |b| > 4 then b[..4] + ":" + b[4..] else b
  }

  /** `re.search("\d{1,2}/\d{4}$", b)`: one or two digits, "/" and a four-digit year at the end. */
  predicate OrdinalSlashYear(b: string)
  {
    |b| >= 6 && IsDigits(b[|b| - 4..]) && b[|b| - 5] == '/' && IsDigit(b[|b| - 6])
  }

  predicate IsField(c: char) { c != ' ' && c != '/' }

  /** Length of the run of characters other than " " and "/" that starts `s`. */
  function FieldLen(s: string): (k: nat)
    ensures k <= |s| && (k < |s| ==> !IsField(s[k]))
    ensures forall i :: 0 <= i < k ==> IsField(s[i])
  {
    if |s| > 0 && IsField(s[0]) then 1 + FieldLen(s[1..]) else 0
  }

  /** `re.split("[ /]", s)`: every single " " or "/" separates. */
  function Fields(s: string): (r: seq<string>)
    ensures |r| >= 1
    decreases |s|
  {
    var k := FieldLen(s);
    if k == |s| then [s] else [s[..k]] + Fields(s[k + 1..])
  }

  predicate AllField(s: string)
  {
    forall i :: 0 <= i < |s| ==> IsField(s[i])
  }

  lemma FieldsCons(a: string, c: char, rest: string)
    requires AllField(a) && !IsField(c)
    ensures Fields(a + [c] + rest) == [a] + Fields(rest)
  {
    var s := a + [c] + rest;
    var k := FieldLen(s);
    assert s[..|a|] == a && s[|a|] == c;
    assert k == |a|;
    assert s[k + 1..] == rest;
  }

  lemma FieldsOne(a: string)
    requires AllField(a)
    ensures Fields(a) == [a]
  {
  }

  /**
   * MIGRFS: an old-style "MIGRFS 04/2017" becomes "MIGRFS 2017:4"; `None`
   * for the `ValueError` of an unpacking into other than three parts or of
   * an ordinal `int` rejects.
   */
  function MigrfsOrdinal(b: string): Option<string>
  {
    if OrdinalSlashYear(b) then
      var parts := Fields(b);
      if |parts| != 3 then None
      else match PyInt(parts[1])
        case None => None
        case Some(v) => Some(parts[0] + " " + parts[2] + ":" + IntToString(v))
    else Some(b)
  }

  /** What each repository's `sanitize_basefile` override does before calling the base class's. */
  function Prepare(a: Agency, b: string): Option<string>
  {
    match a
    case Eifs => Some(ReplaceOnce(ReplaceOnce(b, "_", "/"), "_", ":"))
    case Elsakfs => Some(Replace(Lower(b), "elsäk-fs", "elsakfs"))
    case Fffs => Some(FffsColon(b))
    case Lvfs => Some(Replace(Replace(b, "HSLFS", "HSLF"), "HLFS", "HSLF"))
    case Migrfs => MigrfsOrdinal(b)
    case Nfs => Some(Replace(b, " ", "/"))
    case _ => Some(b)
  }

  /** A repository's `sanitize_basefile`; `None` for `ValueError`. */
  function SanitizeFor(a: Agency, b: string): Option<string>
    requires ValidAgency(a)
  {
    match Prepare(a, b)
    case None => None
    case Some(p) => SanitizeBasefile(p, Collections(a))
  }

  /** EIFS's override turns the first two "_" into "/" and ":". */
  lemma EifsPrepare(y: string, n: string)
    requires IsDigits(y) && IsDigits(n)
    ensures Prepare(Eifs, "EIFS_" + y + "_" + n) == Some("EIFS" + ['/'] + y + ":" + n)
  {
    EifsFirstUnderscore(y, n);
    EifsSecondUnderscore(y, n);
  }

  lemma EifsFirstUnderscore(y: string, n: string)
    requires IsDigits(y)
    ensures ReplaceOnce("EIFS_" + y + "_" + n, "_", "/") == "EIFS/" + y + ['_'] + n
  {
    assert "EIFS_" + y + "_" + n == "EIFS" + ['_'] + (y + "_" + n);
    ReplaceOnceChar("EIFS", '_', y + "_" + n, "/");
    assert "EIFS" + "/" + (y + "_" + n) == "EIFS/" + y + ['_'] + n;
  }

  lemma EifsSecondUnderscore(y: string, n: string)
    requires IsDigits(y)
    ensures ReplaceOnce("EIFS/" + y + ['_'] + n, "_", ":") == "EIFS" + ['/'] + y + ":" + n
  {
    ReplaceOnceChar("EIFS/" + y, '_', n, ":");
    assert "EIFS/" + y + ":" + n == "EIFS" + ['/'] + y + ":" + n;
  }

  lemma LowerEifs()
    ensures Lower("EIFS") == "eifs"
  {
    var u := "EIFS";
    assert LowerChar(u[0]) == 'e' && LowerChar(u[1]) == 'i' && LowerChar(u[2]) == 'f' && LowerChar(u[3]) == 's';
    assert Lower(u) == [LowerChar(u[0]), LowerChar(u[1]), LowerChar(u[2]), LowerChar(u[3])];
  }

  /** EIFS: a file name "EIFS_2013_1" becomes "eifs/2013:1". */
  lemma EifsUnderscores(y: string, n: string)
    requires IsDigits(y) && IsDigits(n)
    ensures SanitizeFor(Eifs, "EIFS_" + y + "_" + n) == Some("eifs" + "/" + y + ":" + NatToString(DigitsValue(n)))
  {
    EifsPrepare(y, n);
    DigitsPlain(y);
    EifsName();
    SanitizeThree("EIFS", '/', y, n, Collections(Eifs));
  }

  lemma EifsName()
    ensures NoSep("EIFS") && Lower("EIFS") == "eifs" && "eifs" in Collections(Eifs)
  {
    LowerEifs();
  }

  /** Digits are lower case and no separators. */
  lemma DigitsPlain(d: string)
    requires IsDigits(d)
    ensures NoSep(d) && LowerCase(d)
  {
  }

  lemma LowerElsakfs()
    ensures Lower("ELSÄK-FS") == "elsäk-fs"
  {
    var u := "ELSÄK-FS";
    assert LowerChar(u[0]) == 'e' && LowerChar(u[1]) == 'l' && LowerChar(u[2]) == 's' && LowerChar(u[3]) == 'ä';
    assert LowerChar(u[4]) == 'k' && LowerChar(u[5]) == '-' && LowerChar(u[6]) == 'f' && LowerChar(u[7]) == 's';
    assert Lower(u) == [LowerChar(u[0]), LowerChar(u[1]), LowerChar(u[2]), LowerChar(u[3]),
                        LowerChar(u[4]), LowerChar(u[5]), LowerChar(u[6]), LowerChar(u[7])];
  }

  /** Lower-casing "ELSÄK-FS" before a lower-case rest. */
  lemma LowerElsakfsPrefix(tail: string)
    requires LowerCase(tail)
    ensures Lower("ELSÄK-FS" + tail) == "elsäk-fs" + tail
  {
    LowerFixed(tail);
    LowerAppend("ELSÄK-FS", tail);
    LowerElsakfs();
  }

  /** Replacing the leading "elsäk-fs" of a rest without an "e". */
  lemma ReplaceElsakfs(tail: string)
    requires forall i :: 0 <= i < |tail| ==> tail[i] != 'e'
    ensures Replace("elsäk-fs" + tail, "elsäk-fs", "elsakfs") == "elsakfs" + tail
  {
    FirstCharAbsent(tail, "elsäk-fs");
    ReplaceLeading("elsäk-fs", tail, "elsakfs");
  }

  /** ELSAKFS's override turns the collection's real name "ELSÄK-FS" into its slug "elsakfs". */
  lemma ElsakfsPrepare(y: string, n: string)
    requires IsDigits(y) && IsDigits(n)
    ensures Prepare(Elsakfs, "ELSÄK-FS " + y + ":" + n) == Some("elsakfs" + [' '] + y + ":" + n)
  {
    var tail := " " + y + ":" + n;
    assert "ELSÄK-FS " + y + ":" + n == "ELSÄK-FS" + tail;
    assert LowerCase(tail) && forall i :: 0 <= i < |tail| ==> tail[i] != 'e' by {
      DigitsPlain(y);
      DigitsPlain(n);
    }
    LowerElsakfsPrefix(tail);
    ReplaceElsakfs(tail);
    assert "elsakfs" + tail == "elsakfs" + [' '] + y + ":" + n;
  }

  /** ELSAKFS: an identifier "ELSÄK-FS 2016:4" becomes "elsakfs/2016:4". */
  lemma ElsakfsName(y: string, n: string)
    requires IsDigits(y) && IsDigits(n)
    ensures SanitizeFor(Elsakfs, "ELSÄK-FS " + y + ":" + n) == Some("elsakfs" + "/" + y + ":" + NatToString(DigitsValue(n)))
  {
    ElsakfsPrepare(y, n);
    DigitsPlain(y);
    ElsakfsSlug();
    SanitizeThreeLower("elsakfs", ' ', y, n, Collections(Elsakfs));
  }

  lemma ElsakfsSlug()
    ensures NoSep("elsakfs") && LowerCase("elsakfs") && "elsakfs" in Collections(Elsakfs)
  {
  }

  /**
   * FFFS as written splits a number of five digits or more that already has
   * its ":": "12345:6" becomes "fffs/1234/5:6", where the intended override
   * leaves it alone (FffsColonKept).
   */
  lemma FffsColonAlwaysApplied(d: string, n: string)
    requires IsDigits(d) && |d| > 4 && IsDigits(n)
    ensures SanitizeBasefile(FffsColonAsWritten(d + ":" + n), Collections(Fffs))
      == Some("fffs" + "/" + (d[..4] + "/" + d[4..] + ":" + NatToString(DigitsValue(n))))
  {
    var a, y := d[..4], d[4..];
    FffsAsWrittenShape(d, n);
    var b := a + "/" + y + ":" + NatToString(DigitsValue(n));
    assert b[0] == d[0];
    FffsDigitLead(b);
    SanitizeThreeUnlisted(a, ':', y, n, Collections(Fffs));
  }

  /** FFFS as written on digits, ":" and a number: a second ":" after the fourth digit. */
  lemma FffsAsWrittenShape(d: string, n: string)
    requires IsDigits(d) && |d| > 4
    ensures FffsColonAsWritten(d + ":" + n) == d[..4] + [':'] + d[4..] + ":" + n
    ensures NoSep(d[..4]) && LowerCase(d[..4]) && NoSep(d[4..]) && LowerCase(d[4..]) && d[4..] != []
  {
    var s := d + ":" + n;
    assert s[..4] == d[..4] && s[4..] == d[4..] + ":" + n;
    assert IsDigits(d[..4]) && IsDigits(d[4..]);
    DigitsPlain(d[..4]);
    DigitsPlain(d[4..]);
  }

  /** No FFFS collection starts with a digit. */
  lemma FffsDigitLead(b: string)
    requires b != [] && IsDigit(b[0])
    ensures !Listed(b, Collections(Fffs))
  {
    DigitLeadUnlisted(b, Collections(Fffs));
  }

  /** A basefile that starts with a digit names none of the collections, none of which does. */
  lemma DigitLeadUnlisted(b: string, fs: seq<string>)
    requires b != [] && IsDigit(b[0])
    requires forall i :: 0 <= i < |fs| ==> fs[i] != [] && !IsDigit(fs[i][0])
    ensures !Listed(b, fs)
  {
    forall f | f in fs
      ensures !StartsWith(b, f + "/")
    {
      assert (f + "/")[0] == f[0];
    }
  }

  /** FFFS as intended: a basefile that already has its ":" is passed on unchanged and keeps all its digits. */
  lemma FffsColonKept(d: string, n: string)
    requires IsDigits(d) && IsDigits(n)
    ensures SanitizeFor(Fffs, d + ":" + n) == Some("fffs" + "/" + (d + ":" + NatToString(DigitsValue(n))))
  {
    var s := d + ":" + n;
    assert !IsDigit(s[|d|]);
    assert FffsColon(s) == s;
    DigitsPlain(d);
    SanitizeYearNumber(d, n, Collections(Fffs));
  }

  /** FFFS: a number of digits from a document URL, such as "201412", becomes "fffs/2014:12", written or intended. */
  lemma FffsDigits(d: string)
    requires IsDigits(d) && |d| > 4
    ensures SanitizeFor(Fffs, d) == Some("fffs" + "/" + (d[..4] + ":" + NatToString(DigitsValue(d[4..]))))
    ensures FffsColonAsWritten(d) == FffsColon(d)
  {
    assert IsDigits(d[..4]) && IsDigits(d[4..]);
    DigitsPlain(d[..4]);
    SanitizeYearNumber(d[..4], d[4..], Collections(Fffs));
  }

  /** LVFS: a basefile without the misspellings "HSLFS" and "HLFS" is passed on as it is. */
  lemma LvfsUnchanged(b: string)
    requires !Contains(b, "HSLFS") && !Contains(b, "HLFS")
    ensures Prepare(Lvfs, b) == Some(b)
  {
    ReplaceAbsent(b, "HSLFS", "HSLF");
    ReplaceAbsent(b, "HLFS", "HSLF");
  }

  /** "<u> <o>/<y>" ends in ordinal/year. */
  lemma OrdinalEnds(u: string, o: string, y: string)
    requires IsDigits(o) && IsDigits(y) && |y| == 4
    ensures OrdinalSlashYear(u + " " + (o + "/" + y))
  {
    var t := o + "/" + y;
    var b := u + " " + t;
    assert b[|b| - 6..] == t[|t| - 6..];
    assert t[|t| - 4..] == y && t[|t| - 5] == '/' && t[|t| - 6] == o[|o| - 1];
  }

  /** "<u> <o>/<y>" splits on " " and "/" into its three parts. */
  lemma OrdinalFields(u: string, o: string, y: string)
    requires AllField(u) && IsDigits(o) && IsDigits(y)
    ensures Fields(u + " " + (o + "/" + y)) == [u, o, y]
  {
    assert AllField(o) && AllField(y);
    FieldsOne(y);
    FieldsCons(o, '/', y);
    FieldsCons(u, ' ', o + "/" + y);
  }

  /** MIGRFS's override reorders "MIGRFS 04/2017" to "MIGRFS 2017:4". */
  lemma MigrfsPrepare(u: string, o: string, y: string)
    requires AllField(u) && IsDigits(o) && IsDigits(y) && |y| == 4
    ensures Prepare(Migrfs, u + " " + (o + "/" + y)) == Some(u + " " + y + ":" + NatToString(DigitsValue(o)))
  {
    var b := u + " " + (o + "/" + y);
    OrdinalEnds(u, o, y);
    OrdinalFields(u, o, y);
    MigrfsOrdinalOf(b, u, o, y);
  }

  /** Three fields of an ordinal/year basefile: the ordinal is renumbered after the year. */
  lemma MigrfsOrdinalOf(b: string, u: string, o: string, y: string)
    requires OrdinalSlashYear(b) && Fields(b) == [u, o, y] && IsDigits(o)
    ensures MigrfsOrdinal(b) == Some(u + " " + y + ":" + NatToString(DigitsValue(o)))
  {
    var parts := Fields(b);
    assert |parts| == 3 && parts[0] == u && parts[1] == o && parts[2] == y;
    StripTrimmed(o);
    assert PyInt(o) == Some(DigitsValue(o) as int);
  }

  /** MIGRFS: an old-style "MIGRFS 04/2017" becomes "migrfs/2017:4". */
  lemma MigrfsOldStyle(u: string, o: string, y: string)
    requires AllField(u) && NoSep(u) && Lower(u) in Collections(Migrfs)
    requires IsDigits(o) && IsDigits(y) && |y| == 4
    ensures SanitizeFor(Migrfs, u + " " + (o + "/" + y)) == Some(Lower(u) + "/" + y + ":" + NatToString(DigitsValue(o)))
  {
    MigrfsPrepare(u, o, y);
    DigitsPlain(y);
    var n := NatToString(DigitsValue(o));
    assert u + " " + y + ":" + n == u + [' '] + y + ":" + n;
    SanitizeThree(u, ' ', y, n, Collections(Migrfs));
  }

  /** NFS: "NFS 2016:5" (or "SNFS 1994:2") becomes "nfs/2016:5". */
  lemma NfsSpaced(u: string, y: string, n: string)
    requires NoSep(u) && Lower(u) in Collections(Nfs) && IsDigits(y) && IsDigits(n)
    ensures SanitizeFor(Nfs, u + " " + y + ":" + n) == Some(Lower(u) + "/" + y + ":" + NatToString(DigitsValue(n)))
  {
    NfsPrepare(u, y, n);
    DigitsPlain(y);
    SanitizeThree(u, '/', y, n, Collections(Nfs));
  }

  /** NFS's override turns the space after the collection into "/". */
  lemma NfsPrepare(u: string, y: string, n: string)
    requires NoSep(u) && IsDigits(y) && IsDigits(n)
    ensures Prepare(Nfs, u + " " + y + ":" + n) == Some(u + ['/'] + y + ":" + n)
  {
    var rest := y + ":" + n;
    assert u + " " + y + ":" + n == u + [' '] + rest;
    assert forall i :: 0 <= i < |rest| ==> rest[i] != ' ' by {
      DigitsPlain(y);
      DigitsPlain(n);
    }
    ReplaceChar(u, ' ', rest, "/");
    assert u + "/" + rest == u + ['/'] + y + ":" + n;
  }
}
