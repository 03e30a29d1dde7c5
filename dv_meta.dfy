/**
 * Steps 0 to 6 of `DV.sanitize_metadata`: the repairs applied to the
 * metadata head of a court decision before it is turned into RDF.
 *
 *  0. every value is whitespace-stripped;
 *  1. a missing Referat is rebuilt from an ADO/MDO basefile;
 *  2. two known misspellings of "Hovrätten" are fixed, then the court name
 *     is looked up (exactly, else fuzzily);
 *  3. Målnummer becomes a list of case numbers;
 *  4. `_localid` is the case-number list, else `[Domsnummer]`;
 *  5. an NJA reference is split into the page reference and the ordinal;
 *  6. the Referat is rendered in its canonical form.
 *
 * The three regular expressions involved are written out as greedy
 * cursors over the string; each regex is deterministic (no backtracking
 * changes the match), which the comments at each matcher explain.
 */
module DvMeta {
  import opened Wrappers
  import opened PyStr

  // ------------------------------------------------------------ regex steps

  /** The character classes the three regular expressions use. */
  datatype Class = Digit | Word | Capital | Blank

  predicate In(p: Class, c: char)
  {
    match p
    case Digit => IsDigit(c)
    case Word => IsWordChar(c)
    case Capital => 'A' <= c <= 'Z' || c == 'Å' || c == 'Ä' || c == 'Ö'
    case Blank => c == ' '
  }

  predicate All(p: Class, s: string) { forall i :: 0 <= i < |s| ==> In(p, s[i]) }

  predicate NoneIn(p: Class, s: string) { forall i :: 0 <= i < |s| ==> !In(p, s[i]) }

  /** Length of the longest prefix of `p`-characters: a greedy `p*`. */
  function RunLen(s: string, p: Class): (k: nat)
    ensures k <= |s| && All(p, s[..k])
    ensures k < |s| ==> !In(p, s[k])
  {
    if s != [] && In(p, s[0]) then
      var k := 1 + RunLen(s[1..], p);
      assert forall i :: 1 <= i < k ==> s[..k][i] == s[1..][..k - 1][i - 1];
      k
    else 0
  }

  lemma {:induction false} RunLenOf(x: string, y: string, p: Class)
    requires All(p, x) && (y == [] || !In(p, y[0]))
    ensures RunLen(x + y, p) == |x|
  {
    if x != [] {
      assert (x + y)[1..] == x[1..] + y;
      RunLenOf(x[1..], y, p);
    }
  }

  /** Length of the prefix before the first `p`-character: a greedy `[^p]*`. */
  function UntilLen(s: string, p: Class): (k: nat)
    ensures k <= |s| && NoneIn(p, s[..k])
    ensures k < |s| ==> In(p, s[k])
  {
    if s != [] && !In(p, s[0]) then
      var k := 1 + UntilLen(s[1..], p);
      assert forall i :: 1 <= i < k ==> s[..k][i] == s[1..][..k - 1][i - 1];
      k
    else 0
  }

  lemma {:induction false} UntilLenOf(x: string, y: string, p: Class)
    requires NoneIn(p, x) && y != [] && In(p, y[0])
    ensures UntilLen(x + y, p) == |x|
  {
    if x != [] {
      assert (x + y)[1..] == x[1..] + y;
      UntilLenOf(x[1..], y, p);
    }
  }

  /** An optional character `c?`. */
  function Skip(s: string, c: char): (r: string)
    ensures r == s || (s != [] && s[0] == c && r == s[1..])
  {
    if s != [] && s[0] == c then s[1..] else s
  }

  // ---------------------------------------------------- basefile and Referat

  /**
   * `re.match("(?P<type>\w+)/(?P<year>\d+)-(?P<ordinal>\d+)", basefile)`.
   * `/` and `-` are not in the preceding classes, so each run is maximal.
   */
  function BasefileMatch(b: string): (r: Option<(string, string, string)>)
  {
    var t := RunLen(b, Word);
    var r := b[t..];
    if t == 0 || r == [] || r[0] != '/' then None
    else
      var y := RunLen(r[1..], Digit);
      var r' := r[1..][y..];
      if y == 0 || r' == [] || r'[0] != '-' then None
      else
        var o := RunLen(r'[1..], Digit);
        if o == 0 then None else Some((b[..t], r[1..][..y], r'[1..][..o]))
  }

  /** A basefile of the form `type/year-ordinal`. */
  function BasefileOf(t: string, y: string, o: string): string
  {
    t + ("/" + (y + ("-" + o)))
  }

  /** A successful match names a prefix `type/year-ordinal` of the basefile. */
  lemma BasefileMatchSound(b: string) returns (rest: string)
    requires BasefileMatch(b).Some?
    ensures var (t, y, o) := BasefileMatch(b).value;
      t != [] && y != [] && o != [] && All(Word, t) && All(Digit, y) && All(Digit, o)
      && b == t + ("/" + (y + ("-" + (o + rest))))
  {
    var k := RunLen(b, Word);
    var r := b[k..];
    var r1 := r[1..];
    var m := RunLen(r1, Digit);
    var r' := r1[m..];
    var r2 := r'[1..];
    var n := RunLen(r2, Digit);
    assert BasefileMatch(b) == Some((b[..k], r1[..m], r2[..n]));
    rest := r2[n..];
    Parts(b, k);
    Parts(r1, m);
    Parts(r2, n);
    Lead(r, '/');
    Lead(r', '-');
  }

  lemma Lead(s: string, c: char)
    requires s != [] && s[0] == c
    ensures s == [c] + s[1..]
  {
  }

  lemma Parts(s: string, k: nat)
    requires k <= |s|
    ensures s == s[..k] + s[k..]
  {
  }

  /** Every `type/year-ordinal` basefile is matched with exactly those groups. */
  lemma BasefileMatchComplete(t: string, y: string, o: string)
    requires t != [] && y != [] && o != []
    requires All(Word, t) && All(Digit, y) && All(Digit, o)
    ensures BasefileMatch(BasefileOf(t, y, o)) == Some((t, y, o))
  {
    RunLenOf(t, "/" + (y + ("-" + o)), Word);
    RunLenOf(y, "-" + o, Digit);
    RunLenOf(o, [], Digit);
    assert o + [] == o;
  }

  /** The Referat templates, keyed by the matched type. */
  function TypeLabel(t: string): string
  {
    if t == "ADO" then "AD" else if t == "MDO" then "MD" else t
  }

  function Infix(t: string): string
  {
    if t == "ADO" || t == "AD" then " nr " else if t == "NJA" then " s. " else ":"
  }

  /** `referat_templ[type] % groups`, with the `None` template for other types. */
  function Render(t: string, y: string, o: string): string
  {
    TypeLabel(t) + (" " + (y + (Infix(t) + o)))
  }

  /**
   * `re.search("(?P<type>[A-ZÅÄÖ]+)[^\d]*(?P<year>\d+)[^\d]+(?P<ordinal>\d+)", s)`.
   * A match from a later start needs the same two digit runs, so the
   * leftmost start is the first capital; each group is then maximal.
   */
  function RefMatch(s: string): (r: Option<(string, string, string)>)
  {
    var r0 := s[UntilLen(s, Capital)..];
    if r0 == [] then None
    else
      var t := RunLen(r0, Capital);
      var r1 := r0[t..];
      var r2 := r1[UntilLen(r1, Digit)..];
      if r2 == [] then None
      else
        var y := RunLen(r2, Digit);
        var r3 := r2[y..];
        var r4 := r3[UntilLen(r3, Digit)..];
        if r4 == [] then None
        else Some((r0[..t], r2[..y], r4[..RunLen(r4, Digit)]))
  }

  /** A rendered Referat is matched back into its own type, year and ordinal. */
  lemma RefMatchShape(t: string, y: string, infix: string, o: string)
    requires t != [] && All(Capital, t) && y != [] && o != [] && All(Digit, y) && All(Digit, o)
    requires infix != [] && NoneIn(Digit, infix)
    ensures RefMatch(t + (" " + (y + (infix + o)))) == Some((t, y, o))
  {
    var s := t + (" " + (y + (infix + o)));
    UntilLenOf([], s, Capital);
    assert [] + s == s && s[0..] == s;
    RunLenOf(t, " " + (y + (infix + o)), Capital);
    UntilLenOf(" ", y + (infix + o), Digit);
    RunLenOf(y, infix + o, Digit);
    UntilLenOf(infix, o, Digit);
    RunLenOf(o, [], Digit);
    assert o + [] == o;
  }

  // ------------------------------------------------------------------ step 5

  /**
   * `re.match("NJA ?(\d+) ?s\.? ?(\d+) *\( ?(?:NJA|) ?[ :]?(\d+) ?: ?(\d+)", s)`.
   * Every optional part consumes only spaces, dots, colons or "NJA", and the
   * next group must start at a digit, so taking each optional part when it
   * is present is the only way to match.
   */
  function NjaMatch(s: string): (r: Option<(string, string, string, string)>)
  {
    match NjaPage(s)
    case None => None
    case Some((a, b, rest)) =>
      match NjaOrdinal(rest)
      case None => None
      case Some((c, d)) => Some((a, b, c, d))
  }

  /** `NJA ?(\d+) ?s\.? ?(\d+) *`: both groups and the rest, where `(` must follow. */
  function NjaPage(s: string): (r: Option<(string, string, string)>)
  {
    if !("NJA" <= s) then None
    else
      var r0 := Skip(s[3..], ' ');
      var a := RunLen(r0, Digit);
      if a == 0 then None
      else match PageTail(Skip(r0[a..], ' '))
        case None => None
        case Some((b, rest)) => Some((r0[..a], b, rest))
  }

  /** `s\.? ?(\d+) *`: the page group and the rest. */
  function PageTail(r1: string): (r: Option<(string, string)>)
  {
    if r1 == [] || r1[0] != 's' then None
    else
      var r2 := Skip(Skip(r1[1..], '.'), ' ');
      var b := RunLen(r2, Digit);
      var r3 := r2[b..];
      if b == 0 then None else Some((r2[..b], r3[RunLen(r3, Blank)..]))
  }

  /** `\( ?(?:NJA|) ?[ :]?(\d+) ?: ?(\d+)` at the start of `u`: both groups. */
  function NjaOrdinal(u: string): (r: Option<(string, string)>)
  {
    if u == [] || u[0] != '(' then None else OrdinalGroups(OrdinalLead(u[1..]))
  }

  /** ` ?(?:NJA|) ?[ :]?`: what is left once the optional parts are taken. */
  function OrdinalLead(v: string): (x: string)
  {
    var v' := Skip(v, ' ');
    var w := Skip(if "NJA" <= v' then v'[3..] else v', ' ');
    if w != [] && (w[0] == ' ' || w[0] == ':') then w[1..] else w
  }

  /** `(\d+) ?: ?(\d+)`. */
  function OrdinalGroups(x: string): (r: Option<(string, string)>)
  {
    var c := RunLen(x, Digit);
    var z := Skip(x[c..], ' ');
    if c == 0 || z == [] || z[0] != ':' then None
    else
      var z' := Skip(z[1..], ' ');
      var d := RunLen(z', Digit);
      if d == 0 then None else Some((x[..c], z'[..d]))
  }

  /** The form the source documents: "NJA 2008 s 567 (NJA 2008:86)". */
  function NjaRef(a: string, b: string, c: string, d: string): string
  {
    "NJA" + (" " + (a + (" " + ("s" + (" " + (b + (" " + NjaParen(c, d))))))))
  }

  function NjaParen(c: string, d: string): string
  {
    "(" + ("NJA" + (" " + (c + (":" + (d + ")")))))
  }

  lemma PageTailDocumented(b: string, rest: string)
    requires b != [] && All(Digit, b)
    requires rest != [] && rest[0] == '('
    ensures PageTail("s" + (" " + (b + (" " + rest)))) == Some((b, rest))
  {
    var w := " " + rest;
    var z := " " + (b + w);
    assert ("s" + z)[1..] == z;
    assert Skip(z, '.') == z && Skip(z, ' ') == b + w;
    RunLenOf(b, w, Digit);
    RunLenOf(" ", rest, Blank);
  }

  lemma NjaPageDocumented(a: string, b: string, rest: string)
    requires a != [] && b != [] && All(Digit, a) && All(Digit, b)
    requires rest != [] && rest[0] == '('
    ensures NjaPage("NJA" + (" " + (a + (" " + ("s" + (" " + (b + (" " + rest)))))))) == Some((a, b, rest))
  {
    var y := " " + ("s" + (" " + (b + (" " + rest))));
    var x := " " + (a + y);
    assert ("NJA" + x)[3..] == x;
    assert Skip(x, ' ') == a + y;
    RunLenOf(a, y, Digit);
    assert Skip(y, ' ') == "s" + (" " + (b + (" " + rest)));
    PageTailDocumented(b, rest);
  }

  lemma OrdinalLeadDocumented(x: string)
    requires x != [] && IsDigit(x[0])
    ensures OrdinalLead("NJA" + (" " + x)) == x
  {
  }

  lemma OrdinalGroupsDocumented(c: string, d: string)
    requires c != [] && d != [] && All(Digit, c) && All(Digit, d)
    ensures OrdinalGroups(c + (":" + (d + ")"))) == Some((c, d))
  {
    RunLenOf(c, ":" + (d + ")"), Digit);
    assert (d + ")")[0] == d[0];
    RunLenOf(d, ")", Digit);
  }

  lemma NjaOrdinalDocumented(c: string, d: string)
    requires c != [] && d != [] && All(Digit, c) && All(Digit, d)
    ensures NjaOrdinal(NjaParen(c, d)) == Some((c, d))
  {
    var x := c + (":" + (d + ")"));
    assert NjaParen(c, d)[1..] == "NJA" + (" " + x);
    assert x[0] == c[0];
    OrdinalLeadDocumented(x);
    OrdinalGroupsDocumented(c, d);
  }

  lemma NjaMatchDocumented(a: string, b: string, c: string, d: string)
    requires a != [] && b != [] && c != [] && d != []
    requires All(Digit, a) && All(Digit, b) && All(Digit, c) && All(Digit, d)
    ensures NjaMatch(NjaRef(a, b, c, d)) == Some((a, b, c, d))
  {
    NjaPageDocumented(a, b, NjaParen(c, d));
    NjaOrdinalDocumented(c, d);
  }

  // ------------------------------------------------------------ the outcome

  datatype Error = KeyError(key: string) | ParseError(message: string) | AttributeError
  datatype Result<T> = Ok(value: T) | Err(error: Error)

  /** The head entries the steps read; `None` is a missing key. */
  datatype Head = Head(referat: Option<string>, domstol: Option<string>,
                       malnummer: Option<string>, domsnummer: Option<string>)

  /** The head after step 6; `malnummer` is `None` when step 3 left it alone. */
  datatype Sanitized = Sanitized(referat: string, domstol: string,
                                 malnummer: Option<seq<string>>, localid: seq<string>,
                                 njaOrdinal: Option<string>)

  function StripValue(v: Option<string>): Option<string>
  {
    if v.Some? then Some(Strip(v.value)) else None
  }

  /** Step 0. */
  function Stripped(h: Head): Head
  {
    Head(StripValue(h.referat), StripValue(h.domstol), StripValue(h.malnummer), StripValue(h.domsnummer))
  }

  predicate Truthy(v: Option<string>) { v.Some? && v.value != "" }

  /** Step 1: an empty or missing Referat is rebuilt from an ADO/MDO basefile. */
  function FillReferat(referat: Option<string>, basefile: string): Option<string>
  {
    if Truthy(referat) then referat
    else match BasefileMatch(basefile)
      case Some((t, y, o)) => if t == "ADO" || t == "MDO" then Some(Render(t, y, o)) else referat
      case None => referat
  }

  /**
   * Step 2. The exact lookup (`lookup_resource(..., cutoff=1)`) and the fuzzy
   * lookup followed by `lookup_label` are parameters.
   */
  function FixDomstol(d: string, exact: string -> bool, fuzzy: string -> string): string
  {
    var fixed := if Contains(d, "Hovrättenför") || Contains(d, "Hovrättenöver")
                 then Replace(d, "Hovrätten", "Hovrätten ") else d;
    if exact(fixed) then fixed else fuzzy(fixed)
  }

  // ------------------------------------------------------------------ step 3

  predicate IsSep(c: char) { c == ',' || c == ';' || IsSpace(c) }

  predicate NoSeps(s: string) { forall i :: 0 <= i < |s| ==> !IsSep(s[i]) }

  /** `re.split("och|,|;|\s", s)`, with `cur` the part of the first piece already read. */
  function SplitPieces(s: string, cur: string): seq<string>
    decreases |s|
  {
    if s == [] then [cur]
    else if "och" <= s then [cur] + SplitPieces(s[3..], "")
    else if IsSep(s[0]) then [cur] + SplitPieces(s[1..], "")
    else SplitPieces(s[1..], cur + [s[0]])
  }

  /** `[v.strip()]` when that is not blank, else nothing. */
  function Kept(v: string): seq<string>
  {
    var t := Strip(v);
    if t != "" then [t] else []
  }

  /** The list built by appending each non-blank piece, stripped. */
  function KeepStripped(vs: seq<string>): seq<string>
  {
    Flatten(vs, Kept)
  }

  /** `m[:2] in ('Ö ', 'B ', 'T ')`, compared character by character. */
  predicate SingleCase(m: string) { |m| >= 2 && m[0] in {'Ö', 'B', 'T'} && m[1] == ' ' }

  /** Step 3 for a non-blank Målnummer. */
  function CaseNumbers(m: string): seq<string>
  {
    if SingleCase(m) then [Replace(m, " ", "")] else KeepStripped(SplitPieces(m, ""))
  }

  lemma KeepStep(vs: seq<string>, i: nat)
    requires i < |vs|
    ensures KeepStripped(vs[..i + 1]) == KeepStripped(vs[..i]) + Kept(vs[i])
  {
    assert vs[..i + 1][..i] == vs[..i];
  }

  method CaseNumberList(m: string) returns (res: seq<string>)
    ensures res == CaseNumbers(m)
  {
    if SingleCase(m) {
      return [Replace(m, " ", "")];
    }
    res := KeepNonBlank(SplitPieces(m, ""));
  }

  /** The loop keeping each piece that is not blank once stripped. */
  method KeepNonBlank(pieces: seq<string>) returns (res: seq<string>)
    ensures res == KeepStripped(pieces)
  {
    res := [];
    var i := 0;
    while i < |pieces|
      invariant 0 <= i <= |pieces|
      invariant res == KeepStripped(pieces[..i])
    {
      KeepStep(pieces, i);
      var v := Strip(pieces[i]);
      if v != "" {
        res := res + [v];
      }
      i := i + 1;
    }
    assert pieces[..|pieces|] == pieces;
  }

  // ------------------------------------------------------------ steps 4 to 6

  /** Step 4. */
  function LocalId(cases: Option<seq<string>>, domsnummer: Option<string>): (r: Result<seq<string>>)
    ensures r.Ok? <==> (cases.Some? && cases.value != []) || Truthy(domsnummer)
    ensures r.Ok? ==> r.value != []
    ensures cases.Some? && cases.value != [] ==> r == Ok(cases.value)
    ensures r.Err? ==> r.error.ParseError?
  {
    if cases.Some? && cases.value != [] then Ok(cases.value)
    else if Truthy(domsnummer) then Ok([domsnummer.value])
    else Err(ParseError("Required key (Målnummer/Domsnummer) missing"))
  }

  /** `"NJA %s s %s"` and `"NJA %s:%s"`. */
  function PageRef(a: string, b: string): string { "NJA" + (" " + (a + (" s " + b))) }

  function OrdinalRef(c: string, d: string): string { "NJA" + (" " + (c + (":" + d))) }

  /** Step 5: the Referat and the `_nja_ordinal` it yields. */
  function NjaStep(referat: string): Result<(string, Option<string>)>
  {
    if Contains(referat, "NJA") && !Contains(referat, " not ") then
      match NjaMatch(referat)
      case Some((a, b, c, d)) => Ok((PageRef(a, b), Some(OrdinalRef(c, d))))
      case None => Err(ParseError("Unparseable NJA ref '" + referat + "'"))
    else Ok((referat, None))
  }

  /** Step 6; a basefile that names ADO/MDO but does not match fails on `m.group`. */
  function CanonicalReferat(referat: string, basefile: string): Result<string>
  {
    if Contains(referat, " not ") then Ok(referat)
    else match RefMatch(referat)
      case Some((t, y, o)) => Ok(Render(t, y, o))
      case None =>
        if Split(basefile, "/")[0] in {"ADO", "MDO"} then
          match BasefileMatch(basefile)
          case Some((t, y, o)) => Ok(Render(t, y, o))
          case None => Err(AttributeError)
        else Err(ParseError("Unparseable ref '" + referat + "'"))
  }

  /** Steps 0 to 6 in order; the first failing step decides the error. */
  function Sanitize(head: Head, basefile: string, exact: string -> bool, fuzzy: string -> string): Result<Sanitized>
  {
    var h := Stripped(head);
    var referat := FillReferat(h.referat, basefile);
    if h.domstol.None? then Err(KeyError("Domstol"))
    else
      var domstol := FixDomstol(h.domstol.value, exact, fuzzy);
      var cases := if Truthy(h.malnummer) then Some(CaseNumbers(h.malnummer.value)) else None;
      match LocalId(cases, h.domsnummer)
      case Err(e) => Err(e)
      case Ok(localid) =>
        if referat.None? then Err(KeyError("Referat"))
        else match NjaStep(referat.value)
          case Err(e) => Err(e)
          case Ok((ref5, ordinal)) =>
            match CanonicalReferat(ref5, basefile)
            case Err(e) => Err(e)
            case Ok(ref6) => Ok(Sanitized(ref6, domstol, cases, localid, ordinal))
  }

  method SanitizeMetadata(head: Head, basefile: string, exact: string -> bool, fuzzy: string -> string)
    returns (r: Result<Sanitized>)
    ensures r == Sanitize(head, basefile, exact, fuzzy)
  {
    var h := Stripped(head);
    var referat := FillReferat(h.referat, basefile);
    if h.domstol.None? {
      return Err(KeyError("Domstol"));
    }
    var domstol := FixDomstol(h.domstol.value, exact, fuzzy);
    var cases: Option<seq<string>> := None;
    if Truthy(h.malnummer) {
      var list := CaseNumberList(h.malnummer.value);
      cases := Some(list);
    }
    var localid := LocalId(cases, h.domsnummer);
    if localid.Err? {
      return Err(localid.error);
    }
    if referat.None? {
      return Err(KeyError("Referat"));
    }
    var nja := NjaStep(referat.value);
    if nja.Err? {
      return Err(nja.error);
    }
    var canonical := CanonicalReferat(nja.value.0, basefile);
    if canonical.Err? {
      return Err(canonical.error);
    }
    r := Ok(Sanitized(canonical.value, domstol, cases, localid.value, nja.value.1));
  }
  // ------------------------------------------------------------------ lemmas

  predicate Lacks(s: string, c: char) { forall i :: 0 <= i < |s| ==> s[i] != c }

  lemma LacksNotContains(s: string, t: string, i: nat)
    requires i < |t| && Lacks(s, t[i])
    ensures !Contains(s, t)
  {
    forall j: nat ensures !OccursAt(s, t, j) {
      if j + |t| <= |s| {
        assert s[j..j + |t|][i] == s[j + i];
      }
    }
  }

  lemma LacksRender(t: string, y: string, o: string, c: char)
    requires All(Capital, t) && All(Digit, y) && All(Digit, o)
    requires c == 'o' || c == 'J'
    requires c == 'J' ==> t in {"ADO", "MDO"}
    ensures Lacks(Render(t, y, o), c)
  {
    var s := Render(t, y, o);
    var l := TypeLabel(t);
    var x := Infix(t);
    forall i | 0 <= i < |s| ensures s[i] != c {
      if i < |l| {
        assert s[i] == l[i];
      } else if i == |l| {
        assert s[i] == ' ';
      } else if i < |l| + 1 + |y| {
        assert s[i] == y[i - |l| - 1];
      } else if i < |l| + 1 + |y| + |x| {
        assert s[i] == x[i - |l| - 1 - |y|];
      } else {
        assert s[i] == o[i - |l| - 1 - |y| - |x|];
      }
    }
  }

  /**
   * Step 6 is idempotent on its own output: a Referat already in canonical
   * form is left as it is, whatever the basefile.
   */
  lemma CanonicalReferatIdempotent(t: string, y: string, o: string, basefile: string)
    requires t != [] && y != [] && o != [] && All(Capital, t) && All(Digit, y) && All(Digit, o)
    ensures CanonicalReferat(Render(t, y, o), basefile) == Ok(Render(t, y, o))
  {
    LacksRender(t, y, o, 'o');
    assert " not "[2] == 'o';
    LacksNotContains(Render(t, y, o), " not ", 2);
    LabelFacts(t);
    RefMatchShape(TypeLabel(t), y, Infix(t), o);
  }

  /** Rendering the label again picks the same template. */
  lemma LabelFacts(t: string)
    requires t != [] && All(Capital, t)
    ensures TypeLabel(t) != [] && All(Capital, TypeLabel(t)) && NoneIn(Digit, Infix(t))
    ensures TypeLabel(TypeLabel(t)) == TypeLabel(t) && Infix(TypeLabel(t)) == Infix(t)
  {
  }

  /** "ADO" and "MDO" are runs of capitals, hence of word characters. */
  lemma TemplateTypeClasses(t: string)
    requires t in {"ADO", "MDO"}
    ensures t != [] && All(Word, t) && All(Capital, t)
  {
    assert t == [t[0], 'D', 'O'] && (t[0] == 'A' || t[0] == 'M');
    assert IsWordChar('A') && IsWordChar('M') && IsWordChar('D') && IsWordChar('O');
  }

  /**
   * Step 1 end to end: without a Referat, an ADO or MDO basefile
   * `type/year-ordinal` yields the Referat of that template, and no NJA ordinal.
   */
  lemma MissingReferatRebuilt(head: Head, t: string, y: string, o: string,
                              exact: string -> bool, fuzzy: string -> string)
    requires t in {"ADO", "MDO"} && y != [] && o != [] && All(Digit, y) && All(Digit, o)
    requires !Truthy(StripValue(head.referat)) && head.domstol.Some?
    requires Truthy(StripValue(head.domsnummer))
    ensures var r := Sanitize(head, BasefileOf(t, y, o), exact, fuzzy);
      r.Ok? && r.value.referat == Render(t, y, o) && r.value.njaOrdinal.None?
  {
    var basefile := BasefileOf(t, y, o);
    var ref := Render(t, y, o);
    TemplateTypeClasses(t);
    BasefileMatchComplete(t, y, o);
    assert FillReferat(Stripped(head).referat, basefile) == Some(ref);
    LacksRender(t, y, o, 'J');
    assert "NJA"[1] == 'J';
    LacksNotContains(ref, "NJA", 1);
    assert NjaStep(ref) == Ok((ref, None));
    CanonicalReferatIdempotent(t, y, o, basefile);
    SanitizeOk(head, basefile, exact, fuzzy, ref, ref, None, ref);
  }

  /**
   * Steps 5 and 6 end to end on the documented NJA form: the Referat becomes
   * "NJA a s. b" and the ordinal "NJA c:d".
   */
  lemma NjaReferatSplit(head: Head, a: string, b: string, c: string, d: string, basefile: string,
                        exact: string -> bool, fuzzy: string -> string)
    requires a != [] && b != [] && c != [] && d != []
    requires All(Digit, a) && All(Digit, b) && All(Digit, c) && All(Digit, d)
    requires head.referat == Some(NjaRef(a, b, c, d)) && head.domstol.Some?
    requires Truthy(StripValue(head.domsnummer))
    ensures var r := Sanitize(head, basefile, exact, fuzzy);
      r.Ok? && r.value.referat == Render("NJA", a, b) && r.value.njaOrdinal == Some(OrdinalRef(c, d))
  {
    var ref := NjaRef(a, b, c, d);
    assert FillReferat(Stripped(head).referat, basefile) == Some(ref) by { StripTrimmed(ref); }
    assert NjaStep(ref) == Ok((PageRef(a, b), Some(OrdinalRef(c, d)))) by { NjaStepDocumented(a, b, c, d); }
    assert CanonicalReferat(PageRef(a, b), basefile) == Ok(Render("NJA", a, b)) by { CanonicalPageRef(a, b, basefile); }
    SanitizeOk(head, basefile, exact, fuzzy, ref, PageRef(a, b), Some(OrdinalRef(c, d)), Render("NJA", a, b));
  }

  /** The Referat steps compose: a Domstol and a Domsnummer leave the outcome to steps 1, 5 and 6. */
  lemma SanitizeOk(head: Head, basefile: string, exact: string -> bool, fuzzy: string -> string,
                   ref1: string, ref5: string, ordinal: Option<string>, ref6: string)
    requires head.domstol.Some? && Truthy(StripValue(head.domsnummer))
    requires FillReferat(Stripped(head).referat, basefile) == Some(ref1)
    requires NjaStep(ref1) == Ok((ref5, ordinal))
    requires CanonicalReferat(ref5, basefile) == Ok(ref6)
    ensures var r := Sanitize(head, basefile, exact, fuzzy);
      r.Ok? && r.value.referat == ref6 && r.value.njaOrdinal == ordinal
  {
    var h := Stripped(head);
    var cases := if Truthy(h.malnummer) then Some(CaseNumbers(h.malnummer.value)) else None;
    assert LocalId(cases, h.domsnummer).Ok?;
  }

  lemma NjaStepDocumented(a: string, b: string, c: string, d: string)
    requires a != [] && b != [] && c != [] && d != []
    requires All(Digit, a) && All(Digit, b) && All(Digit, c) && All(Digit, d)
    ensures NjaStep(NjaRef(a, b, c, d)) == Ok((PageRef(a, b), Some(OrdinalRef(c, d))))
  {
    var s := NjaRef(a, b, c, d);
    assert OccursAt(s, "NJA", 0);
    ContainsAt(s, "NJA", 0);
    NjaRefLacks(a, b, c, d);
    assert " not "[2] == 'o';
    LacksNotContains(s, " not ", 2);
    NjaMatchDocumented(a, b, c, d);
  }

  lemma NjaRefLacks(a: string, b: string, c: string, d: string)
    requires All(Digit, a) && All(Digit, b) && All(Digit, c) && All(Digit, d)
    ensures Lacks(NjaRef(a, b, c, d), 'o')
  {
    var s := NjaRef(a, b, c, d);
    var x := NjaParen(c, d);
    var ae := 4 + |a|;
    var be := ae + 3 + |b|;
    forall i | 0 <= i < |s| ensures s[i] != 'o' {
      if i < 4 { } else if i < ae { assert s[i] == a[i - 4]; }
      else if i < ae + 3 { } else if i < be { assert s[i] == b[i - ae - 3]; }
      else if i == be { } else {
        assert s[i] == x[i - be - 1];
        var j := i - be - 1;
        if j < 5 { } else if j < 5 + |c| { assert x[j] == c[j - 5]; }
        else if j == 5 + |c| { } else if j < 6 + |c| + |d| { assert x[j] == d[j - 6 - |c|]; }
      }
    }
  }

  /** Step 6 turns the page reference of step 5 into "NJA a s. b". */
  lemma CanonicalPageRef(a: string, b: string, basefile: string)
    requires a != [] && b != [] && All(Digit, a) && All(Digit, b)
    ensures CanonicalReferat(PageRef(a, b), basefile) == Ok(Render("NJA", a, b))
  {
    var p := PageRef(a, b);
    forall i | 0 <= i < |p| ensures p[i] != 'o' {
      if i < 4 { } else if i < 4 + |a| { assert p[i] == a[i - 4]; }
      else if i < 7 + |a| { } else { assert p[i] == b[i - 7 - |a|]; }
    }
    assert " not "[2] == 'o';
    LacksNotContains(p, " not ", 2);
    assert All(Capital, "NJA") && NoneIn(Digit, " s ");
    RefMatchShape("NJA", a, " s ", b);
  }
  // ------------------------------------------------------- case-number lists

  /** A case number the splitter leaves whole. */
  predicate PlainNumber(n: string) { n != [] && NoSeps(n) && !Contains(n, "och") }

  /** Only the two end characters decide whether `strip()` changes anything. */
  lemma EndsStripped(v: string)
    requires v != [] ==> !IsSep(v[0]) && !IsSep(v[|v| - 1])
    ensures Strip(v) == v
  {
    if v != [] { StripTrimmed(v); } else { StripEmpty(); }
  }

  lemma {:induction false} PiecesClean(s: string, cur: string)
    requires NoSeps(cur)
    ensures forall v :: v in SplitPieces(s, cur) ==> NoSeps(v)
    decreases |s|
  {
    if s == [] {
    } else if "och" <= s {
      PiecesClean(s[3..], "");
    } else if IsSep(s[0]) {
      PiecesClean(s[1..], "");
    } else {
      assert NoSeps(cur + [s[0]]);
      PiecesClean(s[1..], cur + [s[0]]);
    }
  }

  lemma {:induction false} KeepClean(vs: seq<string>)
    requires forall v :: v in vs ==> NoSeps(v)
    ensures forall n :: n in KeepStripped(vs) ==> n != "" && NoSeps(n)
  {
    if vs != [] {
      var init := vs[..|vs| - 1];
      assert forall v :: v in init ==> v in vs;
      KeepClean(init);
      var v := vs[|vs| - 1];
      assert NoSeps(v);
      assert v != [] ==> !IsSep(v[0]) && !IsSep(v[|v| - 1]);
      EndsStripped(v);
      assert KeepStripped(vs) == KeepStripped(init) + Kept(vs[|vs| - 1]);
    }
  }

  lemma {:induction false} SplitLacks(s: string, c: char)
    ensures forall p :: p in Split(s, [c]) ==> Lacks(p, c)
    decreases |s|
  {
    match IndexOf(s, [c])
    case None =>
      forall j | 0 <= j < |s| ensures s[j] != c {
        assert s[j..j + 1] == [s[j]] && !OccursAt(s, [c], j);
      }
    case Some(k) =>
      forall j | 0 <= j < k ensures s[j] != c {
        assert s[j..j + 1] == [s[j]] && !OccursAt(s, [c], j);
      }
      assert Lacks(s[..k], c);
      SplitLacks(s[k + 1..], c);
  }

  lemma {:induction false} JoinLacks(parts: seq<string>, c: char)
    requires forall p :: p in parts ==> Lacks(p, c)
    ensures Lacks(Join(parts, ""), c)
  {
    if |parts| > 1 {
      assert forall p :: p in parts[1..] ==> p in parts;
      JoinLacks(parts[1..], c);
      assert parts[0] in parts;
    }
  }

  /**
   * Step 3's rules: "Ö ", "B " or "T " gives a single case number with the
   * spaces removed; anything else gives non-empty case numbers containing
   * none of the separators.
   */
  lemma CaseNumbersClean(m: string)
    ensures SingleCase(m) ==> |CaseNumbers(m)| == 1 && Lacks(CaseNumbers(m)[0], ' ')
    ensures !SingleCase(m) ==> forall n :: n in CaseNumbers(m) ==> n != "" && NoSeps(n)
  {
    if SingleCase(m) {
      SplitLacks(m, ' ');
      JoinLacks(Split(m, " "), ' ');
    } else {
      PiecesClean(m, "");
      KeepClean(SplitPieces(m, ""));
    }
  }

  lemma {:induction false} WordThrough(n: string, rest: string, cur: string)
    requires NoSeps(n) && !Contains(n, "och")
    requires rest == [] || IsSep(rest[0])
    ensures SplitPieces(n + rest, cur) == SplitPieces(rest, cur + n)
    decreases |n|
  {
    if n == [] {
      assert n + rest == rest && cur + n == cur;
    } else {
      var s := n + rest;
      assert !("och" <= s) by {
        if |s| >= 3 {
          if |n| >= 3 {
            assert !OccursAt(n, "och", 0);
            assert s[..3] == n[..3];
          } else {
            assert s[|n|] == rest[0];
            assert s[..3][|n|] != "och"[|n|];
          }
        }
      }
      assert s[1..] == n[1..] + rest;
      forall j: nat ensures !OccursAt(n[1..], "och", j) {
        OccursShift(n, "och", j);
      }
      WordThrough(n[1..], rest, cur + [n[0]]);
      assert cur + [n[0]] + n[1..] == cur + n;
    }
  }

  /** A separator closes the current piece. */
  lemma SepStep(s: string, cur: string)
    requires s != [] && IsSep(s[0])
    ensures SplitPieces(s, cur) == [cur] + SplitPieces(s[1..], "")
  {
    assert !("och" <= s) by {
      assert "och"[0] == 'o' && !IsSep('o');
    }
  }

  lemma {:induction false} SepThrough(sep: string, rest: string, cur: string, f: string -> seq<string>)
    requires sep != [] && forall i :: 0 <= i < |sep| ==> IsSep(sep[i])
    requires f("") == []
    ensures Flatten(SplitPieces(sep + rest, cur), f) == f(cur) + Flatten(SplitPieces(rest, ""), f)
    decreases |sep|
  {
    var s := sep + rest;
    assert s[0] == sep[0];
    SepStep(s, cur);
    assert s[1..] == sep[1..] + rest;
    FlattenCons(cur, SplitPieces(s[1..], ""), f);
    if |sep| > 1 {
      SepThrough(sep[1..], rest, "", f);
      assert [] + Flatten(SplitPieces(rest, ""), f) == Flatten(SplitPieces(rest, ""), f);
    } else {
      assert sep[1..] + rest == rest;
    }
  }

  lemma {:induction false} PiecesOfJoin(ns: seq<string>, sep: string, f: string -> seq<string>)
    requires ns != [] && forall n :: n in ns ==> PlainNumber(n) && f(n) == [n]
    requires sep != [] && forall i :: 0 <= i < |sep| ==> IsSep(sep[i])
    requires f("") == []
    ensures Flatten(SplitPieces(Join(ns, sep), ""), f) == ns
  {
    var n := ns[0];
    assert PlainNumber(n) && f(n) == [n];
    if |ns| == 1 {
      WordThrough(n, [], "");
      assert n + [] == n && "" + n == n;
      assert SplitPieces(n, "") == [n];
      FlattenCons(n, [], f);
      assert [n] + [] == [n] && ns == [n];
    } else {
      var j := Join(ns[1..], sep);
      var rest := sep + j;
      assert Join(ns, sep) == n + rest;
      assert rest[0] == sep[0];
      WordThrough(n, rest, "");
      assert "" + n == n;
      SepThrough(sep, j, n, f);
      assert forall x :: x in ns[1..] ==> x in ns;
      PiecesOfJoin(ns[1..], sep, f);
      assert ns == [n] + ns[1..];
    }
  }

  lemma KeptPlain(x: string)
    requires PlainNumber(x)
    ensures Kept(x) == [x]
  {
    assert !IsSep(x[0]) && !IsSep(x[|x| - 1]);
    EndsStripped(x);
  }

  /** A joined list starts with its first element, then the separator if more follow. */
  lemma JoinStart(ns: seq<string>, sep: string) returns (rest: string)
    requires ns != [] && sep != []
    ensures Join(ns, sep) == ns[0] + rest
    ensures rest == [] || rest[0] == sep[0]
  {
    if |ns| == 1 {
      rest := [];
      assert ns[0] + rest == ns[0];
    } else {
      rest := sep + Join(ns[1..], sep);
      assert rest[0] == sep[0];
    }
  }

  /** A joined list whose first number is not "Ö", "B" or "T" is not a single case. */
  lemma NotSingleCaseJoin(ns: seq<string>, sep: string)
    requires ns != [] && PlainNumber(ns[0]) && ns[0] !in {"Ö", "B", "T"}
    requires sep != [] && IsSep(sep[0])
    ensures !SingleCase(Join(ns, sep))
  {
    var m := Join(ns, sep);
    var n := ns[0];
    var rest := JoinStart(ns, sep);
    if |m| >= 2 {
      if |n| >= 2 {
        assert m[1] == n[1] && !IsSep(n[1]);
        assert m[1] != ' ';
      } else {
        assert m[0] == n[0] && n == [n[0]] && m[1] == rest[0];
        assert m[0] !in {'Ö', 'B', 'T'};
      }
    }
  }

  /**
   * Splitting a list of case numbers written with any run of `,`, `;` or
   * whitespace between them gives the list back.
   */
  lemma CaseNumbersOfJoin(ns: seq<string>, sep: string)
    requires ns != [] && forall n :: n in ns ==> PlainNumber(n)
    requires ns[0] !in {"Ö", "B", "T"}
    requires sep != [] && forall i :: 0 <= i < |sep| ==> IsSep(sep[i])
    ensures CaseNumbers(Join(ns, sep)) == ns
  {
    assert PlainNumber(ns[0]) && IsSep(sep[0]);
    NotSingleCaseJoin(ns, sep);
    StripEmpty();
    assert Kept("") == [];
    forall x | x in ns ensures Kept(x) == [x] {
      KeptPlain(x);
    }
    PiecesOfJoin(ns, sep, Kept);
  }
}
