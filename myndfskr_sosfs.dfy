/**
 * `SOSFS._basefile_from_text`: the basefile named by the text of a link on
 * Socialstyrelsen's list of regulations. The text is searched for
 * `(SOSFS\s+|HSLF-FS\s+|)(\d+):(\d+)`; a number without a collection
 * belongs to SOSFS before 2015 and to HSLF-FS after it, and 2015 itself
 * cannot be told apart.
 */
module MyndSosfs {
  import opened Wrappers
  import opened PyStr
  import opened MyndBasefile

  // ------------------------------------------------------------ the pattern

  /** Length of the run of whitespace that starts `s`: a greedy `\s*`. */
  function SpaceRun(s: string): (k: nat)
    ensures k <= |s|
    ensures forall i :: 0 <= i < k ==> IsSpace(s[i])
    ensures k < |s| ==> !IsSpace(s[k])
  {
    if |s| == 0 || !IsSpace(s[0]) then 0 else 1 + SpaceRun(s[1..])
  }

  /** The three groups of a match: the collection with its whitespace (empty when absent), the year and the number. */
  datatype FsNumber = FsNumber(fs: string, year: string, no: string)

  /** `(\d+):(\d+)` at the start of `t`, after the collection group `fs`. */
  function NumberAt(t: string, fs: string): (r: Option<FsNumber>)
    ensures r.Some? ==> r.value.fs == fs && IsDigits(r.value.year) && IsDigits(r.value.no)
    ensures r.Some? ==> !Free(t, ':')
  {
    var y := DigitRun(t);
    if 0 < y < |t| && t[y] == ':' && DigitRun(t[y + 1..]) > 0 then
      Some(FsNumber(fs, t[..y], t[y + 1..][..DigitRun(t[y + 1..])]))
    else None
  }

  /** Length of `lit` and the whitespace after it at the start of `t`; 0 unless there is some whitespace. */
  function PrefixLen(t: string, lit: string): (k: nat)
    ensures k <= |t|
    ensures k > 0 ==> |lit| < k && StartsWith(t, lit)
    ensures k > 0 ==> forall i :: |lit| <= i < k ==> IsSpace(t[i])
  {
    if StartsWith(t, lit) && SpaceRun(t[|lit|..]) > 0 then |lit| + SpaceRun(t[|lit|..]) else 0
  }

  /**
   * The pattern at the start of `t`: the alternatives in order, each
   * falling through to the next when the rest fails. Giving back whitespace
   * from `\s+` never helps, since `\d+` cannot start on whitespace.
   */
  function MatchAt(t: string): (r: Option<FsNumber>)
    ensures r.Some? ==> IsDigits(r.value.year) && IsDigits(r.value.no)
    ensures r.Some? ==> !Free(t, ':')
  {
    var s := PrefixLen(t, "SOSFS");
    var h := PrefixLen(t, "HSLF-FS");
    var sosfs := if s > 0 then NumberAt(t[s..], t[..s]) else None;
    var hslf := if h > 0 then NumberAt(t[h..], t[..h]) else None;
    if sosfs.Some? then
      assert !Free(t, ':') by { FreeSuffix(t, s); }
      sosfs
    else if hslf.Some? then
      assert !Free(t, ':') by { FreeSuffix(t, h); }
      hslf
    else NumberAt(t, "")
  }

  /** A suffix of a string free of `c` is free of `c`. */
  lemma FreeSuffix(t: string, k: nat)
    requires k <= |t|
    ensures Free(t, ':') ==> Free(t[k..], ':')
  {
    if Free(t, ':') {
      FreeSlices(t, k, ':');
    }
  }

  /** `re.search` from position `p` with the matcher `m`: the leftmost position where it matches. */
  function Search<T>(m: string -> Option<T>, t: string, p: nat): (r: Option<nat>)
    requires p <= |t|
    ensures r.Some? ==> p <= r.value <= |t| && m(t[r.value..]).Some?
    ensures r.Some? ==> forall q :: p <= q < r.value ==> m(t[q..]).None?
    ensures r.None? ==> forall q :: p <= q <= |t| ==> m(t[q..]).None?
    decreases |t| - p
  {
    if m(t[p..]).Some? then Some(p)
    else if p == |t| then None
    else Search(m, t, p + 1)
  }

  // ------------------------------------------------------------ _basefile_from_text

  /** What `_basefile_from_text` does: returns nothing, raises `ValueError`, or returns a basefile. */
  datatype FromText = NoNumber | Raises | Found(basefile: string)

  /** The collection a bare number belongs to by its year; `None` for 2015, where the code raises. */
  function GuessFs(year: string): (r: Option<string>)
    requires IsDigits(year)
    ensures r.None? <==> DigitsValue(year) == 2015
  {
    var v := DigitsValue(year);
    if v < 2015 then Some("SOSFS ") else if v > 2015 then Some("HSLF-FS ") else None
  }

  /** What a match turns into: the collection (guessed from the year when absent), then `sanitize_basefile`. */
  function FromMatch(m: FsNumber): FromText
    requires IsDigits(m.year)
  {
    var fs := if m.fs != [] then Some(m.fs) else GuessFs(m.year);
    match fs
    case None => Raises
    case Some(f) =>
      match SanitizeFor(Sosfs, f + m.year + ":" + m.no)
      case None => Raises
      case Some(b) => Found(b)
  }

  /** `SOSFS._basefile_from_text`; an absent link text is the empty one. */
  function BasefileFromText(linktext: string): FromText
  {
    if linktext == [] then NoNumber
    else
      var t := NormalizeSpace(linktext);
      match Search(MatchAt, t, 0)
      case None => NoNumber
      case Some(p) => FromMatch(MatchAt(t[p..]).value)
  }

  // ------------------------------------------------------------ properties

  /** Every basefile SOSFS's `sanitize_basefile` returns is listed. */
  lemma SanitizedSosfsListed(b: string)
    requires SanitizeFor(Sosfs, b).Some?
    ensures Listed(SanitizeFor(Sosfs, b).value, Collections(Sosfs))
  {
    SanitizedListed(b, Collections(Sosfs));
  }

  /** A basefile made from a match belongs to HSLF-FS or SOSFS. */
  lemma FromMatchListed(m: FsNumber)
    requires IsDigits(m.year) && FromMatch(m).Found?
    ensures Listed(FromMatch(m).basefile, Collections(Sosfs))
  {
    var fs := if m.fs != [] then Some(m.fs) else GuessFs(m.year);
    SanitizedSosfsListed(fs.value + m.year + ":" + m.no);
  }

  /** Whatever basefile is found belongs to HSLF-FS or SOSFS. */
  lemma FoundListed(linktext: string)
    requires BasefileFromText(linktext).Found?
    ensures Listed(BasefileFromText(linktext).basefile, Collections(Sosfs))
  {
    var t := NormalizeSpace(linktext);
    var p := Search(MatchAt, t, 0).value;
    FromMatchListed(MatchAt(t[p..]).value);
  }

  /** A link text without a ":" names no regulation. */
  lemma NoColonNoNumber(linktext: string)
    requires Free(linktext, ':')
    ensures BasefileFromText(linktext) == NoNumber
  {
    if linktext != [] {
      var t := NormalizeSpace(linktext);
      NormalizeFree(linktext, ':');
      forall q | 0 <= q <= |t| ensures MatchAt(t[q..]).None? {
        FreeSuffix(t, q);
      }
    }
  }

  /** Digits, ":" and digits contain no whitespace. */
  lemma NumberWord(y: string, n: string)
    requires IsDigits(y) && IsDigits(n)
    ensures y + ":" + n != [] && forall i :: 0 <= i < |y + ":" + n| ==> !IsSpace((y + ":" + n)[i])
  {
  }

  /** The digit runs of "year:number". */
  lemma NumberRuns(y: string, n: string)
    requires IsDigits(y) && IsDigits(n)
    ensures DigitRun(y + (":" + n)) == |y|
    ensures DigitRun(n) == |n|
  {
    DigitRunAll(y, ":" + n);
    DigitRunAll(n, []);
    assert n + [] == n;
  }

  /** What follows the year in "year:number". */
  lemma ColonAfter(y: string, n: string)
    ensures y + ":" + n == y + (":" + n)
    ensures (y + ":" + n)[|y|] == ':' && (y + ":" + n)[|y| + 1..] == n
  {
  }

  /** "year:number" at the start: the number with an empty collection group. */
  lemma NumberAtYear(y: string, n: string, fs: string)
    requires IsDigits(y) && IsDigits(n)
    ensures NumberAt(y + ":" + n, fs) == Some(FsNumber(fs, y, n))
  {
    var t := y + ":" + n;
    NumberRuns(y, n);
    ColonAfter(y, n);
    assert t[..|y|] == y;
    assert n[..|n|] == n;
  }

  /** A bare "year:number" matches with no collection. */
  lemma MatchBare(y: string, n: string)
    requires IsDigits(y) && IsDigits(n)
    ensures MatchAt(y + ":" + n) == Some(FsNumber("", y, n))
  {
    var t := y + ":" + n;
    assert !StartsWith(t, "SOSFS") by { assert t[0] == y[0]; }
    assert !StartsWith(t, "HSLF-FS") by { assert t[0] == y[0]; }
    NumberAtYear(y, n, "");
  }

  /** `lit`, one space and "year:number" match with the collection group `lit + " "`. */
  lemma MatchNamed(lit: string, y: string, n: string)
    requires lit == "SOSFS" || lit == "HSLF-FS"
    requires IsDigits(y) && IsDigits(n)
    ensures MatchAt(lit + " " + (y + ":" + n)) == Some(FsNumber(lit + " ", y, n))
  {
    var num := y + ":" + n;
    var t := lit + " " + num;
    assert PrefixLen(t, lit) == |lit| + 1 by {
      PrefixSpace(lit, num);
    }
    assert t[..|lit| + 1] == lit + " " && t[|lit| + 1..] == num;
    assert NumberAt(num, lit + " ") == Some(FsNumber(lit + " ", y, n)) by {
      NumberAtYear(y, n, lit + " ");
    }
    if lit == "HSLF-FS" {
      assert !StartsWith(t, "SOSFS") by { assert t[0] == 'H'; }
    }
  }

  /** A name, one space and a rest that does not start with whitespace. */
  lemma PrefixSpace(lit: string, rest: string)
    requires rest != [] && !IsSpace(rest[0])
    ensures PrefixLen(lit + " " + rest, lit) == |lit| + 1
  {
    var t := lit + " " + rest;
    assert t[|lit|..] == " " + rest;
    assert (" " + rest)[1..] == rest;
  }

  /** The search finds a match at the very start. */
  lemma SearchStart<T>(m: string -> Option<T>, t: string)
    requires m(t).Some?
    ensures Search(m, t, 0) == Some(0)
  {
    assert t[0..] == t;
  }

  /** The value of "2015". */
  lemma Year2015()
    ensures IsDigits("2015") && DigitsValue("2015") == 2015
  {
    var s := "2015";
    assert s[..3] == "201" && "201"[..2] == "20" && "20"[..1] == "2" && "2"[..0] == [];
  }

  /** The collection name "SOSFS" in lower case, and that it is listed. */
  lemma SosfsName()
    ensures NoSep("SOSFS") && Lower("SOSFS") == "sosfs" && "sosfs" in Collections(Sosfs)
    ensures "SOSFS " == "SOSFS" + " "
  {
    var u := "SOSFS";
    assert LowerChar(u[0]) == 's' && LowerChar(u[1]) == 'o' && LowerChar(u[2]) == 's';
    assert LowerChar(u[3]) == 'f' && LowerChar(u[4]) == 's';
    assert Lower(u) == [LowerChar(u[0]), LowerChar(u[1]), LowerChar(u[2]), LowerChar(u[3]), LowerChar(u[4])];
  }

  /** A listed collection `c`, spelled `u`, a space and "year:number". */
  lemma SanitizeNamed(u: string, c: string, y: string, n: string)
    requires NoSep(u) && Lower(u) == c && c in Collections(Sosfs)
    requires IsDigits(y) && IsDigits(n)
    ensures SanitizeFor(Sosfs, u + " " + y + ":" + n) == Some(c + "/" + y + ":" + NatToString(DigitsValue(n)))
  {
    DigitsPlain(y);
    assert u + " " + y + ":" + n == u + [' '] + y + ":" + n;
    SanitizeThree(u, ' ', y, n, Collections(Sosfs));
  }

  /** SOSFS's `sanitize_basefile` of "SOSFS year:number". */
  lemma SanitizeSosfs(y: string, n: string)
    requires IsDigits(y) && IsDigits(n)
    ensures SanitizeFor(Sosfs, "SOSFS" + " " + y + ":" + n) == Some("sosfs" + "/" + y + ":" + NatToString(DigitsValue(n)))
  {
    SosfsName();
    SanitizeNamed("SOSFS", "sosfs", y, n);
  }

  /** "HSLF-FS" in lower case is "hslf", a hyphen and "fs"; "hslffs" is listed. */
  lemma HslfName()
    ensures Lower("HSLF-FS") == "hslf" + ['-'] + "fs"
    ensures "hslf" + "fs" == "hslffs" && "hslffs" in Collections(Sosfs)
    ensures "HSLF-FS " == "HSLF-FS" + " "
  {
    var u := "HSLF-FS";
    assert LowerChar(u[0]) == 'h' && LowerChar(u[1]) == 's' && LowerChar(u[2]) == 'l' && LowerChar(u[3]) == 'f';
    assert LowerChar(u[4]) == '-' && LowerChar(u[5]) == 'f' && LowerChar(u[6]) == 's';
    assert Lower(u) == [LowerChar(u[0]), LowerChar(u[1]), LowerChar(u[2]), LowerChar(u[3]),
                        LowerChar(u[4]), LowerChar(u[5]), LowerChar(u[6])];
  }

  /** Lower-casing a name, a space and "year:number" only touches the name. */
  lemma LowerNameTail(u: string, y: string, n: string)
    requires IsDigits(y) && IsDigits(n)
    ensures Lower(u + " " + y + ":" + n) == Lower(u) + ([' '] + y + [':'] + n)
  {
    DigitsPlain(y);
    DigitsPlain(n);
    var tail := " " + y + ":" + n;
    assert LowerCase(tail);
    LowerFixed(tail);
    assert u + " " + y + ":" + n == u + tail;
    LowerAppend(u, tail);
  }

  /** "a-b year:number" splits into four segments. */
  lemma SegmentsFour(a: string, b: string, y: string, n: string)
    requires NoSep(a) && NoSep(b) && b != [] && IsDigits(y) && IsDigits(n)
    ensures Segments(a + ['-'] + (b + [' '] + y + [':'] + n)) == [a, b, y, n]
  {
    DigitsPlain(y);
    DigitsPlain(n);
    var rest := b + [' '] + y + [':'] + n;
    assert Segments(rest) == [b, y, n] by {
      SegmentsThree(b, ' ', y, ':', n);
    }
    assert Segments(a + ['-'] + rest) == [a] + Segments(rest) by {
      assert rest[0] == b[0];
      SegmentsCons(a, '-', rest);
    }
    PrependDisplay(a, b, y, n);
  }

  lemma PrependDisplay<T>(a: T, b: T, c: T, d: T)
    ensures [a] + [b, c, d] == [a, b, c, d]
  {
  }

  /** A name that lower-cases to "a-b", a space and "year:number" splits into four segments. */
  lemma FourSegments(u: string, a: string, b: string, y: string, n: string)
    requires Lower(u) == a + ['-'] + b && NoSep(a) && NoSep(b) && b != []
    requires IsDigits(y) && IsDigits(n)
    ensures Segments(Lower(u + " " + y + ":" + n)) == [a, b, y, n]
  {
    LowerFour(u, a, b, y, n);
    SegmentsFour(a, b, y, n);
  }

  /** Lower-casing a name that lower-cases to "a-b", a space and "year:number". */
  lemma LowerFour(u: string, a: string, b: string, y: string, n: string)
    requires Lower(u) == a + ['-'] + b && IsDigits(y) && IsDigits(n)
    ensures Lower(u + " " + y + ":" + n) == a + ['-'] + (b + [' '] + y + [':'] + n)
  {
    LowerNameTail(u, y, n);
    assert a + ['-'] + b + ([' '] + y + [':'] + n) == a + ['-'] + (b + [' '] + y + [':'] + n);
  }

  /** Four segments with "fs" second: the first two run together. */
  lemma AssembleFour(a: string, b: string, y: string, n: string)
    requires b == "fs" && IsDigits(n)
    ensures Assemble([a, b, y, n]) == Some(a + b + "/" + y + ":" + NatToString(DigitsValue(n)))
  {
    var segs := [a, b, y, n];
    assert |segs| == 4 && segs[0] == a && segs[1] == b && segs[2] == y && segs[|segs| - 1] == n;
    RenumberDigits(n);
  }

  /** A name that lower-cases to "a-fs" with "afs" listed, a space and "year:number". */
  lemma SanitizeFour(u: string, a: string, b: string, y: string, n: string)
    requires Lower(u) == a + ['-'] + b && NoSep(a) && b == "fs" && a + b in Collections(Sosfs)
    requires IsDigits(y) && IsDigits(n)
    ensures SanitizeFor(Sosfs, u + " " + y + ":" + n) == Some(a + b + "/" + y + ":" + NatToString(DigitsValue(n)))
  {
    var m := NatToString(DigitsValue(n));
    FourSegments(u, a, b, y, n);
    AssembleFour(a, b, y, n);
    ListedPrefix(a + b, y, m, Collections(Sosfs));
    SanitizeAssembled(u + " " + y + ":" + n, Collections(Sosfs), a + b + "/" + y + ":" + m);
  }

  /** SOSFS's `sanitize_basefile` of "HSLF-FS year:number". */
  lemma SanitizeHslf(y: string, n: string)
    requires IsDigits(y) && IsDigits(n)
    ensures SanitizeFor(Sosfs, "HSLF-FS" + " " + y + ":" + n) == Some("hslffs" + "/" + y + ":" + NatToString(DigitsValue(n)))
  {
    HslfName();
    SanitizeFour("HSLF-FS", "hslf", "fs", y, n);
  }

  /** A bare "year:number" link text, up to the collection choice. */
  lemma BareText(y: string, n: string)
    requires IsDigits(y) && IsDigits(n)
    ensures BasefileFromText(y + ":" + n) == FromMatch(FsNumber("", y, n))
  {
    var t := y + ":" + n;
    NumberWord(y, n);
    NormalizeWord(t);
    MatchBare(y, n);
    SearchStart(MatchAt, t);
    assert t[0..] == t;
  }

  /** A bare number before 2015 is an SOSFS regulation, its number without leading zeros. */
  lemma BareBefore2015(y: string, n: string)
    requires IsDigits(y) && IsDigits(n) && DigitsValue(y) < 2015
    ensures BasefileFromText(y + ":" + n) == Found("sosfs" + "/" + y + ":" + NatToString(DigitsValue(n)))
  {
    BareText(y, n);
    SosfsName();
    SanitizeSosfs(y, n);
  }

  /** A bare number after 2015 is an HSLF-FS regulation. */
  lemma BareAfter2015(y: string, n: string)
    requires IsDigits(y) && IsDigits(n) && DigitsValue(y) > 2015
    ensures BasefileFromText(y + ":" + n) == Found("hslffs" + "/" + y + ":" + NatToString(DigitsValue(n)))
  {
    BareText(y, n);
    HslfName();
    SanitizeHslf(y, n);
  }

  /** A bare number from 2015 raises `ValueError`. */
  lemma Bare2015Raises(n: string)
    requires IsDigits(n)
    ensures BasefileFromText("2015" + ":" + n) == Raises
  {
    Year2015();
    BareText("2015", n);
  }

  /** A link text naming the collection: that collection, whatever the year. */
  lemma NamedText(lit: string, y: string, n: string)
    requires lit == "SOSFS" || lit == "HSLF-FS"
    requires IsDigits(y) && IsDigits(n)
    ensures BasefileFromText(lit + " " + (y + ":" + n)) == FromMatch(FsNumber(lit + " ", y, n))
  {
    var t := lit + " " + (y + ":" + n);
    NamedNormal(lit, y, n);
    MatchNamed(lit, y, n);
    SearchStart(MatchAt, t);
    assert t[0..] == t;
  }

  /** A collection name, a space and "year:number" is already normalised. */
  lemma NamedNormal(lit: string, y: string, n: string)
    requires lit == "SOSFS" || lit == "HSLF-FS"
    requires IsDigits(y) && IsDigits(n)
    ensures NormalizeSpace(lit + " " + (y + ":" + n)) == lit + " " + (y + ":" + n)
  {
    NumberWord(y, n);
    NameWord(lit);
    NormalizeTwoWords(lit, y + ":" + n);
  }

  /** The collection names are words. */
  lemma NameWord(lit: string)
    requires lit == "SOSFS" || lit == "HSLF-FS"
    ensures lit != [] && forall i :: 0 <= i < |lit| ==> !IsSpace(lit[i])
  {
  }

  /** "SOSFS year:number" is an SOSFS regulation for any year. */
  lemma NamedSosfs(y: string, n: string)
    requires IsDigits(y) && IsDigits(n)
    ensures BasefileFromText("SOSFS" + " " + (y + ":" + n)) == Found("sosfs" + "/" + y + ":" + NatToString(DigitsValue(n)))
  {
    NamedText("SOSFS", y, n);
    SosfsName();
    SanitizeSosfs(y, n);
  }

  /** "HSLF-FS year:number" is an HSLF-FS regulation for any year. */
  lemma NamedHslf(y: string, n: string)
    requires IsDigits(y) && IsDigits(n)
    ensures BasefileFromText("HSLF-FS" + " " + (y + ":" + n)) == Found("hslffs" + "/" + y + ":" + NatToString(DigitsValue(n)))
  {
    NamedText("HSLF-FS", y, n);
    HslfName();
    SanitizeHslf(y, n);
  }
}
