/**
 * The pure helpers of the court-report parser (`DV.get_parser`): the
 * part-marker test, ordered-paragraph numbers, court names, the bench
 * ("constitution") list, and the parser's grammar given as data: the
 * ordered recognizers and the (state, recognizer) transition table with
 * its one dynamic rule. The node-URI builder `construct_id` is here too.
 */
module DvParser {
  import opened Wrappers
  import opened PyStr

  // ------------------------------------------------------------ part markers

  /** Number of 'I's that start `s`. */
  function IRun(s: string): (n: nat)
    ensures n <= |s| && (n < |s| ==> s[n] != 'I')
    ensures forall i :: 0 <= i < n ==> s[i] == 'I'
  {
    if |s| > 0 && s[0] == 'I' then 1 + IRun(s[1..]) else 0
  }

  /** Length of the run of `\w` characters that starts `s`. */
  function WordRun(s: string): (n: nat)
    ensures n <= |s| && (n < |s| ==> !IsWordChar(s[n]))
    ensures forall i :: 0 <= i < n ==> IsWordChar(s[i])
  {
    if |s| > 0 && IsWordChar(s[0]) then 1 + WordRun(s[1..]) else 0
  }

  /** `\(\w+\-\d+\)` filling all of `t`: a parenthesised case number such as "(UM1001-08)". */
  predicate IsCaseRef(t: string)
  {
    |t| >= 2 && t[0] == '(' && t[|t| - 1] == ')' &&
    var inner := t[1..|t| - 1];
    var w := WordRun(inner);
    0 < w < |inner| && inner[w] == '-' && IsDigits(inner[w + 1..])
  }

  /** `\.? ?(|\(\w+\-\d+\))$` on what follows the numeral: the second group, if the rest matches. */
  function MarkerTail(t: string): (g: Option<string>)
    ensures g.Some? ==> g.value == "" || IsCaseRef(g.value)
    ensures g.Some? ==> EndsWith(t, g.value)
  {
    var t1 := if StartsWith(t, ".") then t[1..] else t;
    var t2 := if StartsWith(t1, " ") then t1[1..] else t1;
    if t2 == "" then Some("")
    else if IsCaseRef(t2) then
      assert t[|t| - |t2|..] == t2;
      Some(t2)
    else None
  }

  /**
   * `re.match(r"(I{1,3}|IV)\.? ?(|\(\w+\-\d+\))$", p)`: a part marker such as
   * "II", "I." or "IV (UM1001-08)"; the numeral and the parenthesised case
   * number (or "").
   */
  function PartMarker(p: string): (m: Option<(string, string)>)
    ensures m.Some? ==> m.value.0 in Numerals && StartsWith(p, m.value.0)
  {
    var k := IRun(p);
    if 1 <= k <= 3 && MarkerTail(p[k..]).Some? then
      OnlyIs(p[..k]);
      Some((p[..k], MarkerTail(p[k..]).value))
    else if StartsWith(p, "IV") && MarkerTail(p[2..]).Some? then Some(("IV", MarkerTail(p[2..]).value))
    else None
  }

  /** One to three 'I's spell one of the first three numerals. */
  lemma OnlyIs(s: string)
    requires 1 <= |s| <= 3 && forall i :: 0 <= i < |s| ==> s[i] == 'I'
    ensures s == "I" || s == "II" || s == "III"
  {
    if |s| == 1 { assert s == [s[0]]; }
    else if |s| == 2 { assert s == [s[0], s[1]]; }
    else { assert s == [s[0], s[1], s[2]]; }
  }

  const Numerals: seq<string> := ["I", "II", "III", "IV"]

  /** The declarative reading: a numeral, an optional ".", an optional " ", and an optional case number. */
  predicate Marks(p: string, numeral: string, dot: string, space: string, caseRef: string)
  {
    numeral in Numerals && (dot == "" || dot == ".") && (space == "" || space == " ") &&
    (caseRef == "" || IsCaseRef(caseRef)) &&
    p == numeral + (dot + (space + caseRef))
  }

  /** A part of a delmål (sub-case) as `is_delmal` reports it: its numeral and its case number, if any. */
  datatype DelmalInfo = DelmalInfo(id: string, malnr: Option<string>)

  /**
   * `is_delmal`: the chunk (stripped, when it is only peeked at) must be
   * shorter than 20 characters and be a part marker; the case number is
   * reported without its parentheses.
   */
  function IsDelmal(chunk: string, peeked: bool): (r: Option<DelmalInfo>)
    ensures r.Some? ==> r.value.id in Numerals
    ensures r.Some? ==> |if peeked then Strip(chunk) else chunk| < 20
  {
    var s := if peeked then Strip(chunk) else chunk;
    if |s| < 20 then
      match PartMarker(s)
      case None => None
      case Some((id, g)) => Some(DelmalInfo(id, if g != "" then Some(g[1..|g| - 1]) else None))
    else None
  }

  // ------------------------------------------------------------ ordered paragraphs

  /**
   * `ordered`: `re.match(r"(\d+)\.?\s", chunk)`, the leading number of an
   * ordered paragraph such as "18. Blahonga" or "18 Blahonga", but not
   * "24hPoker".
   */
  function Ordered(chunk: string): (r: Option<string>)
  {
    var k := DigitsAt(chunk);
    if k == 0 then None
    else if k < |chunk| && IsSpace(chunk[k]) then Some(chunk[..k])
    else if k + 1 < |chunk| && chunk[k] == '.' && IsSpace(chunk[k + 1]) then Some(chunk[..k])
    else None
  }

  function DigitsAt(s: string): (n: nat)
    ensures n <= |s| && (n < |s| ==> !IsDigit(s[n]))
    ensures forall i :: 0 <= i < n ==> IsDigit(s[i])
  {
    if |s| > 0 && IsDigit(s[0]) then 1 + DigitsAt(s[1..]) else 0
  }

  // ------------------------------------------------------------ courts

  /** A court as the parser carries it: a name, or only the knowledge that it is some court. */
  datatype Court = SomeCourt(flag: bool) | CourtName(name: string)

  /** `canonicalize_court`: "HD" and "HovR" spelled out. */
  function Canonical(c: Court): Court
  {
    match c
    case SomeCourt(_) => c
    case CourtName(n) => CourtName(Replace(Replace(n, "HD", "Högsta domstolen"), "HovR", "Hovrätt"))
  }

  const SupremeCourt := "Högsta domstolen"

  /** `str(court)` as Python renders it. */
  function CourtText(c: Court): string
  {
    match c
    case SomeCourt(b) => if b then "True" else "False"
    case CourtName(n) => n
  }

  /**
   * `is_equivalent_court`: both canonicalised; an unnamed court matches the
   * supreme court, checked as `str(old) in ('Högsta domstolen')`, which, the
   * parentheses making no tuple, is a substring test; otherwise equality.
   */
  function IsEquivalentCourt(newcourt: Court, oldcourt: Court): bool
  {
    var n := Canonical(newcourt);
    var o := Canonical(oldcourt);
    (n == SomeCourt(true) && Contains(SupremeCourt, CourtText(o))) || n == o
  }

  // ------------------------------------------------------------ the bench

  /** A member of the bench: name, position ("ordförande", "referent", ...) and, for a presiding member, a title (possibly none). */
  datatype BenchMember = BenchMember(name: string, position: Option<string>, title: Option<Option<string>>)

  const TitleLength := 13

  /**
   * `parse_constitution`: the comma-separated entries; "ordförande" or
   * "referent" alone gives the previous member that position (an error when
   * there is none), an entry starting "ordförande " or "ordf " is a presiding
   * member whose name may start with a 13-character title, anything else is a
   * plain name.
   */
  function ParseConstitution(s: string): (r: Option<seq<BenchMember>>)
  {
    Constitution(Split(s, ", "), [])
  }

  function Constitution(things: seq<string>, acc: seq<BenchMember>): (r: Option<seq<BenchMember>>)
    ensures r.Some? ==> |r.value| == |acc| + NamedCount(things)
    decreases |things|
  {
    if things == [] then Some(acc)
    else
      var thing := things[0];
      if thing == "ordförande" || thing == "referent" then
        if acc == [] then None
        else Constitution(things[1..], acc[|acc| - 1 := acc[|acc| - 1].(position := Some(thing))])
      else if StartsWith(thing, "ordförande ") || StartsWith(thing, "ordf ") then
        Constitution(things[1..], acc + [Presiding(thing)])
      else
        Constitution(things[1..], acc + [BenchMember(thing, None, None)])
  }

  /** The entries that add a member: all but a bare "ordförande" or "referent". */
  function NamedCount(things: seq<string>): nat
  {
    if things == [] then 0
    else (if things[0] == "ordförande" || things[0] == "referent" then 0 else 1) + NamedCount(things[1..])
  }

  /** `pos, name = thing.split(" ", 1)`, then a leading "t f lagmannen" or "hovrättsrådet" taken as the title. */
  function Presiding(thing: string): (m: BenchMember)
    requires StartsWith(thing, "ordförande ") || StartsWith(thing, "ordf ")
    ensures m.position.Some? && m.title.Some?
  {
    var halves := SplitOnce(thing, " ");
    assert Contains(thing, " ") by {
      if StartsWith(thing, "ordf ") { assert OccursAt(thing, " ", 4); } else { assert OccursAt(thing, " ", 10); }
      ContainsAt(thing, " ", if StartsWith(thing, "ordf ") then 4 else 10);
    }
    var pos := halves[0];
    var name := halves[1];
    if StartsWith(name, "t f lagmannen") || StartsWith(name, "hovrättsrådet") then
      BenchMember(if |name| >= 14 then name[14..] else "", Some(pos), Some(Some(name[..TitleLength])))
    else BenchMember(name, Some(pos), Some(None))
  }

  // ------------------------------------------------------------ part-marker lemmas

  /** The numeral is exactly the run of 'I's when what follows does not start with 'I'. */
  lemma IRunOf(numeral: string, t: string)
    requires forall i :: 0 <= i < |numeral| ==> numeral[i] == 'I'
    requires t == [] || t[0] != 'I'
    ensures IRun(numeral + t) == |numeral|
  {
    var p := numeral + t;
    assert forall i :: 0 <= i < |numeral| ==> p[i] == 'I';
    assert |numeral| < |p| ==> p[|numeral|] != 'I';
  }

  /** The rest after the numeral, as `Marks` builds it, reads back as its case number. */
  lemma TailOf(dot: string, space: string, caseRef: string)
    requires (dot == "" || dot == ".") && (space == "" || space == " ")
    requires caseRef == "" || IsCaseRef(caseRef)
    ensures MarkerTail(dot + (space + caseRef)) == Some(caseRef)
  {
    var t := dot + (space + caseRef);
    var u := space + caseRef;
    if dot == "." {
      assert StartsWith(t, ".") && t[1..] == u;
    } else {
      assert t == u;
      assert !StartsWith(t, ".") by { if u != [] { assert u[0] == ' ' || u[0] == '('; } }
    }
    if space == " " {
      assert StartsWith(u, " ") && u[1..] == caseRef;
    } else {
      assert u == caseRef;
      assert !StartsWith(u, " ") by { if u != [] { assert u[0] == '('; } }
    }
  }

  /** A run of one to three 'I's followed by a matching rest. */
  lemma RunMarker(numeral: string, t: string)
    requires numeral == "I" || numeral == "II" || numeral == "III"
    requires t == [] || t[0] != 'I'
    requires MarkerTail(t).Some?
    ensures PartMarker(numeral + t) == Some((numeral, MarkerTail(t).value))
  {
    var p := numeral + t;
    IRunOf(numeral, t);
    assert p[|numeral|..] == t && p[..|numeral|] == numeral;
  }

  /** "IV" followed by a matching rest. */
  lemma FourMarker(t: string)
    requires t == [] || t[0] == '.' || t[0] == ' ' || t[0] == '('
    requires MarkerTail(t).Some?
    ensures PartMarker("IV" + t) == Some(("IV", MarkerTail(t).value))
  {
    var p := "IV" + t;
    var s := ['V'] + t;
    assert p == "I" + s;
    IRunOf("I", s);
    assert p[1..] == s && p[2..] == t;
    assert !StartsWith(s, ".") && !StartsWith(s, " ") && s != "" && !IsCaseRef(s);
  }

  /** Every string of the marker's form is recognised, with its numeral and its case number. */
  lemma PartMarkerComplete(p: string, numeral: string, dot: string, space: string, caseRef: string)
    requires Marks(p, numeral, dot, space, caseRef)
    ensures PartMarker(p) == Some((numeral, caseRef))
  {
    var t := dot + (space + caseRef);
    TailOf(dot, space, caseRef);
    assert t == [] || t[0] == '.' || t[0] == ' ' || t[0] == '(' by {
      if t != [] {
        if dot == "." { assert t[0] == '.'; }
        else if space == " " { assert t[0] == ' '; }
        else { assert t == caseRef; }
      }
    }
    if numeral == "IV" { FourMarker(t); } else { RunMarker(numeral, t); }
  }

  /** What `MarkerTail` accepts is an optional ".", an optional " " and the case number. */
  lemma TailForm(t: string, g: string) returns (dot: string, space: string)
    requires MarkerTail(t) == Some(g)
    ensures (dot == "" || dot == ".") && (space == "" || space == " ")
    ensures t == dot + (space + g)
  {
    dot := if StartsWith(t, ".") then "." else "";
    var t1 := t[|dot|..];
    space := if StartsWith(t1, " ") then " " else "";
    assert t1 == space + g;
  }

  /** A numeral followed by a rest that matches is of the marker's form. */
  lemma TailMarks(p: string, numeral: string, g: string)
    requires numeral in Numerals && StartsWith(p, numeral)
    requires MarkerTail(p[|numeral|..]) == Some(g)
    ensures exists dot, space :: Marks(p, numeral, dot, space, g)
  {
    var t := p[|numeral|..];
    assert p == numeral + t;
    var dot, space := TailForm(t, g);
    assert Marks(p, numeral, dot, space, g);
  }

  /** And everything recognised has that form. */
  lemma PartMarkerSound(p: string)
    requires PartMarker(p).Some?
    ensures exists dot, space :: Marks(p, PartMarker(p).value.0, dot, space, PartMarker(p).value.1)
  {
    var numeral := PartMarker(p).value.0;
    var k := IRun(p);
    if 1 <= k <= 3 && MarkerTail(p[k..]).Some? {
      assert numeral == p[..k];
    } else {
      assert numeral == "IV";
    }
    TailMarks(p, numeral, PartMarker(p).value.1);
  }

  // ------------------------------------------------------------ ordered lemmas

  /** "18. Blahonga" and "18 Blahonga" are ordered paragraph 18. */
  lemma OrderedComplete(digits: string, dot: string, ws: char, rest: string)
    requires digits != [] && IsDigits(digits) && (dot == "" || dot == ".") && IsSpace(ws)
    ensures Ordered(digits + dot + [ws] + rest) == Some(digits)
  {
    var c := digits + dot + [ws] + rest;
    var k := DigitsAt(c);
    assert forall i :: 0 <= i < |digits| ==> IsDigit(c[i]) by {
      forall i | 0 <= i < |digits| ensures IsDigit(c[i]) { assert c[i] == digits[i]; }
    }
    assert !IsDigit(c[|digits|]) by { if dot == "" { assert c[|digits|] == ws; } else { assert c[|digits|] == '.'; } }
    assert c[..k] == digits;
    if dot == "." { assert c[k] == '.' && c[k + 1] == ws; } else { assert c[k] == ws; }
  }

  // ------------------------------------------------------------ constitution lemmas

  /** Once there is a member, a bare position always has someone to attach to. */
  lemma {:induction false} ConstitutionKeepsGoing(things: seq<string>, acc: seq<BenchMember>)
    requires acc != []
    ensures Constitution(things, acc).Some?
    decreases |things|
  {
    if things != [] {
      var thing := things[0];
      if thing == "ordförande" || thing == "referent" {
        ConstitutionKeepsGoing(things[1..], acc[|acc| - 1 := acc[|acc| - 1].(position := Some(thing))]);
      } else if StartsWith(thing, "ordförande ") || StartsWith(thing, "ordf ") {
        ConstitutionKeepsGoing(things[1..], acc + [Presiding(thing)]);
      } else {
        ConstitutionKeepsGoing(things[1..], acc + [BenchMember(thing, None, None)]);
      }
    }
  }

  /** `parse_constitution` fails (on `res[-1]`) exactly when the list starts with a bare position. */
  lemma ConstitutionFails(s: string)
    ensures ParseConstitution(s).None? <==> Split(s, ", ")[0] in ["ordförande", "referent"]
  {
    var things := Split(s, ", ");
    var thing := things[0];
    if thing == "ordförande" || thing == "referent" {
    } else if StartsWith(thing, "ordförande ") || StartsWith(thing, "ordf ") {
      ConstitutionKeepsGoing(things[1..], [] + [Presiding(thing)]);
    } else {
      ConstitutionKeepsGoing(things[1..], [] + [BenchMember(thing, None, None)]);
    }
  }

  // ------------------------------------------------------------ the grammar

  /** The parser's states (the `"__done__"` state included). */
  datatype State = Body | Delmal | Instans | Dom | Domskal | Domslut | Betankande | Skiljaktig | Tillagg | Endmeta | Done

  /** The recognizers `is_delmal`, `is_endmeta`, ..., `is_paragraph`. */
  datatype Recognizer =
    | DelmalStart | EndmetaStart | InstansStart | DomStart | BetankandeStart | DomskalStart
    | DomslutStart | SkiljaktigStart | TillaggStart | HeadingLine | ParagraphLine

  /** The constructors `make_body`, ..., `make_paragraph`. */
  datatype Constructor =
    | MakeBody | MakeDelmal | MakeInstans | MakeHeading | MakeBetankande | MakeDom | MakeDomskal
    | MakeDomslut | MakeSkiljaktig | MakeTillagg | MakeEndmeta | MakeParagraph

  /** The state a constructor's `@newstate` decorator names, if it has one. */
  function NewState(c: Constructor): Option<State>
  {
    match c
    case MakeBody => Some(Body)
    case MakeDelmal => Some(Delmal)
    case MakeInstans => Some(Instans)
    case MakeBetankande => Some(Betankande)
    case MakeDom => Some(Dom)
    case MakeDomskal => Some(Domskal)
    case MakeDomslut => Some(Domslut)
    case MakeSkiljaktig => Some(Skiljaktig)
    case MakeTillagg => Some(Tillagg)
    case MakeEndmeta => Some(Endmeta)
    case MakeHeading => None
    case MakeParagraph => None
  }

  /** A transition's value: `(make_x, "x")`, `(make_x, None)`, or `(False, None)`, which pops the state. */
  datatype Target = Call(make: Constructor, next: Option<State>) | Pop

  /** A table entry: a fixed target, or the callable `transition_domskal`. */
  datatype Rule = Fixed(target: Target) | DomskalRule

  /** `transition_domskal`: push a domskäl while a betänkande is open, otherwise pop. */
  function TransitionDomskal(stack: seq<State>): (t: Target)
    ensures t.Call? <==> Betankande in stack
    ensures t.Call? ==> t.make == MakeDomskal && t.next == NewState(t.make)
  {
    if Betankande in stack then Call(MakeDomskal, Some(Domskal)) else Pop
  }

  /** The target a rule gives for a given state stack. */
  function Resolve(rule: Rule, stack: seq<State>): Target
  {
    match rule
    case Fixed(t) => t
    case DomskalRule => TransitionDomskal(stack)
  }

  const InitialState := Body
  const InitialConstructor := MakeBody

  /** The recognizers of the default configuration, in the order they are tried. */
  const DefaultRecognizers: seq<Recognizer> := [
    DelmalStart, EndmetaStart, InstansStart, DomStart, BetankandeStart, DomskalStart,
    DomslutStart, SkiljaktigStart, TillaggStart, HeadingLine, ParagraphLine]

  /** The recognizers of the "simple" configuration. */
  const SimpleRecognizers: seq<Recognizer> := [ParagraphLine]

  /** `commonstates`: the states that take headings and paragraphs. */
  predicate Common(s: State)
  {
    s in {Body, Delmal, Instans, Dom, Domskal, Domslut, Betankande, Skiljaktig, Tillagg}
  }

  const Paragraph := Fixed(Call(MakeParagraph, None))

  /** The default configuration's transition table. */
  function Transition(s: State, r: Recognizer): Option<Rule>
  {
    match (s, r)
    case (Body, DelmalStart) => Some(Fixed(Call(MakeDelmal, Some(Delmal))))
    case (Body, InstansStart) => Some(Fixed(Call(MakeInstans, Some(Instans))))
    case (Body, EndmetaStart) => Some(Fixed(Call(MakeEndmeta, Some(Endmeta))))
    case (Delmal, InstansStart) => Some(Fixed(Call(MakeInstans, Some(Instans))))
    case (Delmal, DelmalStart) => Some(Fixed(Pop))
    case (Delmal, EndmetaStart) => Some(Fixed(Pop))
    case (Instans, BetankandeStart) => Some(Fixed(Call(MakeBetankande, Some(Betankande))))
    case (Instans, DomslutStart) => Some(Fixed(Call(MakeDomslut, Some(Domslut))))
    case (Instans, DomStart) => Some(Fixed(Call(MakeDom, Some(Dom))))
    case (Instans, InstansStart) => Some(Fixed(Pop))
    case (Instans, SkiljaktigStart) => Some(Fixed(Call(MakeSkiljaktig, Some(Skiljaktig))))
    case (Instans, TillaggStart) => Some(Fixed(Call(MakeTillagg, Some(Tillagg))))
    case (Instans, DelmalStart) => Some(Fixed(Pop))
    case (Instans, EndmetaStart) => Some(Fixed(Pop))
    case (Betankande, DomskalStart) => Some(DomskalRule)
    case (Betankande, DomslutStart) => Some(Fixed(Call(MakeDomslut, Some(Domslut))))
    case (Betankande, DomStart) => Some(Fixed(Pop))
    case (Done, DomskalStart) => Some(Fixed(Pop))
    case (Done, SkiljaktigStart) => Some(Fixed(Pop))
    case (Done, TillaggStart) => Some(Fixed(Pop))
    case (Done, DelmalStart) => Some(Fixed(Pop))
    case (Done, EndmetaStart) => Some(Fixed(Pop))
    case (Done, DomslutStart) => Some(Fixed(Call(MakeDomslut, Some(Domslut))))
    case (Dom, DomskalStart) => Some(Fixed(Call(MakeDomskal, Some(Domskal))))
    case (Dom, DomslutStart) => Some(Fixed(Call(MakeDomslut, Some(Domslut))))
    case (Dom, InstansStart) => Some(Fixed(Pop))
    case (Dom, SkiljaktigStart) => Some(Fixed(Pop))
    case (Dom, TillaggStart) => Some(Fixed(Pop))
    case (Dom, EndmetaStart) => Some(Fixed(Pop))
    case (Dom, DelmalStart) => Some(Fixed(Pop))
    case (Domskal, DelmalStart) => Some(Fixed(Pop))
    case (Domskal, DomslutStart) => Some(Fixed(Pop))
    case (Domskal, InstansStart) => Some(Fixed(Pop))
    case (Domslut, DelmalStart) => Some(Fixed(Pop))
    case (Domslut, InstansStart) => Some(Fixed(Pop))
    case (Domslut, DomskalStart) => Some(Fixed(Pop))
    case (Domslut, SkiljaktigStart) => Some(Fixed(Pop))
    case (Domslut, TillaggStart) => Some(Fixed(Pop))
    case (Domslut, EndmetaStart) => Some(Fixed(Pop))
    case (Domslut, DomStart) => Some(Fixed(Pop))
    case (Skiljaktig, DomslutStart) => Some(Fixed(Pop))
    case (Skiljaktig, InstansStart) => Some(Fixed(Pop))
    case (Skiljaktig, SkiljaktigStart) => Some(Fixed(Pop))
    case (Skiljaktig, TillaggStart) => Some(Fixed(Pop))
    case (Skiljaktig, DelmalStart) => Some(Fixed(Pop))
    case (Skiljaktig, EndmetaStart) => Some(Fixed(Pop))
    case (Tillagg, TillaggStart) => Some(Fixed(Pop))
    case (Tillagg, DelmalStart) => Some(Fixed(Pop))
    case (Tillagg, EndmetaStart) => Some(Fixed(Pop))
    case (Endmeta, ParagraphLine) => Some(Paragraph)
    case (_, HeadingLine) => if Common(s) then Some(Fixed(Call(MakeHeading, None))) else None
    case (_, ParagraphLine) => if Common(s) then Some(Paragraph) else None
    case _ => None
  }

  /** The "simple" configuration's one transition. */
  function SimpleTransition(s: State, r: Recognizer): Option<Rule>
  {
    if s == Body && r == ParagraphLine then Some(Paragraph) else None
  }

  /** The state a table entry pushes, for some stack. */
  predicate Pushes(rule: Rule, s: State)
  {
    match rule
    case Fixed(t) => t.Call? && t.next == Some(s)
    case DomskalRule => s == Domskal
  }

  /** Every state the parser can be in: the initial one, or one some transition pushes. */
  predicate Reachable(s: State)
  {
    s == InitialState || exists from: State, r: Recognizer :: Transition(from, r).Some? && Pushes(Transition(from, r).value, s)
  }

  /** Every table entry that calls a constructor names the state the constructor's decorator names. */
  lemma TargetsAgreeWithConstructors(s: State, r: Recognizer, stack: seq<State>)
    requires Transition(s, r).Some?
    ensures Resolve(Transition(s, r).value, stack).Call? ==>
      Resolve(Transition(s, r).value, stack).next == NewState(Resolve(Transition(s, r).value, stack).make)
  {
  }

  /** Every reachable state takes the always-true, last-tried `is_paragraph`, so no chunk is left without a transition. */
  lemma ParagraphsEverywhere(s: State)
    requires Reachable(s)
    ensures Transition(s, ParagraphLine) == Some(Paragraph)
    ensures DefaultRecognizers[|DefaultRecognizers| - 1] == ParagraphLine
  {
    if s != InitialState {
      var from: State, r: Recognizer :| Transition(from, r).Some? && Pushes(Transition(from, r).value, s);
      assert s != Done;
    }
  }

  /** The `"__done__"` rows are dead: nothing pushes that state. */
  lemma DoneUnreachable()
    ensures !Reachable(Done)
    ensures Transition(Done, DomslutStart).Some?
  {
    forall from: State, r: Recognizer | Transition(from, r).Some?
      ensures !Pushes(Transition(from, r).value, Done)
    {
    }
  }

  /** `has_ordered_paras`: only the supreme court's and the market court's reports (basefile "HDO/..." or "MDO/...") number their paragraphs. */
  function HasOrderedParas(basefile: string, simple: bool): (b: bool)
    ensures b ==> StartsWith(basefile, "HDO") || StartsWith(basefile, "MDO")
  {
    !simple && |basefile| >= 3 && (basefile[..3] == "HDO" || basefile[..3] == "MDO")
  }

  /** `defaultcourt`: the court a PMD or MMD report comes from, taken from the basefile's collection. */
  function DefaultCourt(basefile: string): (c: Option<string>)
    ensures c.Some? <==> Split(basefile, "/")[0] in ["PMD", "MMD"]
  {
    var coll := Split(basefile, "/")[0];
    if coll == "PMD" then Some("Patent- och marknadsöverdomstolen")
    else if coll == "MMD" then Some("Mark- och miljööverdomstolen")
    else None
  }

  // ------------------------------------------------------------ node identifiers

  /** The kinds of parse-tree node `construct_id` distinguishes (`court` absent for `None`). */
  datatype NodeKind =
    | DelmalNode(ordinal: string)
    | InstansNode(court: Option<Court>)
    | OrderedParagraphNode(ordinal: string)
    | BodyNode | DomNode | DomskalNode
    | OtherNode

  /** The visitor state: the URI built so far and the basefile. */
  datatype UriState = UriState(uri: string, basefile: string)

  /** A node of the parse tree, whose `uri` `construct_id` sets. */
  class Node {
    const kind: NodeKind
    var uri: Option<string>

    constructor(kind: NodeKind)
      ensures this.kind == kind && uri == None
    {
      this.kind := kind;
      uri := None;
    }
  }

  /** Python truthiness of an instans's court. */
  predicate HasCourt(c: Option<Court>)
  {
    match c
    case None => false
    case Some(SomeCourt(b)) => b
    case Some(CourtName(n)) => n != ""
  }

  /** The court's slug from the slug table, "XXX" when there is none (always so for an unnamed court). */
  function Slug(c: Court, slugs: map<string, string>): string
  {
    match c
    case SomeCourt(_) => "XXX"
    case CourtName(n) => if n in slugs then slugs[n] else "XXX"
  }

  /** A fragment is added with "#" when the URI has none yet, and with "/" after that. */
  function Separator(uri: string): (sep: string)
    ensures sep == "#" <==> '#' !in uri
  {
    if '#' in uri then "/" else "#"
  }

  /** The URI `construct_id` gives the node, if any. */
  function NodeUri(kind: NodeKind, st: UriState, slugs: map<string, string>): (u: Option<string>)
    ensures u.Some? ==> StartsWith(u.value, st.uri) && |u.value| > |st.uri|
    ensures u.Some? <==> kind.DelmalNode? || kind.OrderedParagraphNode? || (kind.InstansNode? && HasCourt(kind.court))
  {
    match kind
    case DelmalNode(o) => Some(st.uri + "#" + o)
    case InstansNode(c) =>
      if HasCourt(c) then Some(st.uri + Separator(st.uri) + Slug(c.value, slugs)) else None
    case OrderedParagraphNode(o) => Some(st.uri + Separator(st.uri) + "P" + o)
    case _ => None
  }

  /** The state `construct_id` hands to the node's children; `None` for a node it does not know. */
  function ChildState(kind: NodeKind, st: UriState, slugs: map<string, string>): (r: Option<UriState>)
    ensures r.Some? ==> r.value.basefile == st.basefile
    ensures r.None? <==> kind.OtherNode?
    ensures r.Some? && r.value != st ==> Some(r.value.uri) == NodeUri(kind, st, slugs)
  {
    match kind
    case DelmalNode(_) => Some(st.(uri := NodeUri(kind, st, slugs).value))
    case InstansNode(c) => if HasCourt(c) then Some(st.(uri := NodeUri(kind, st, slugs).value)) else Some(st)
    case OtherNode => None
    case _ => Some(st)
  }

  /** `construct_id`: sets the node's URI and returns the state for its children. */
  method ConstructId(node: Node, st: UriState, slugs: map<string, string>) returns (r: Option<UriState>)
    modifies node
    ensures r == ChildState(node.kind, st, slugs)
    ensures node.uri == (if NodeUri(node.kind, st, slugs).Some? then NodeUri(node.kind, st, slugs) else old(node.uri))
  {
    match node.kind {
      case DelmalNode(o) =>
        node.uri := Some(st.uri + "#" + o);
        r := Some(st.(uri := node.uri.value));
      case InstansNode(c) =>
        if HasCourt(c) {
          var sep := if '#' !in st.uri then "#" else "/";
          var uri := st.uri + sep;
          node.uri := Some(uri + Slug(c.value, slugs));
          r := Some(st.(uri := node.uri.value));
        } else {
          r := Some(st);
        }
      case OrderedParagraphNode(o) =>
        var sep := if '#' in st.uri then "/" else "#";
        node.uri := Some(st.uri + sep + "P" + o);
        r := Some(st);
      case BodyNode => r := Some(st);
      case DomNode => r := Some(st);
      case DomskalNode => r := Some(st);
      case OtherNode => r := None;
    }
  }

  /** An ordered paragraph's URI is the section's URI with a "P" fragment; the section stays the base. */
  lemma OrderedParagraphUri(o: string, st: UriState, slugs: map<string, string>)
    ensures NodeUri(OrderedParagraphNode(o), st, slugs) == Some(st.uri + Separator(st.uri) + "P" + o)
    ensures ChildState(OrderedParagraphNode(o), st, slugs) == Some(st)
  {
  }

  /** After an instans with a court, the base URI has its fragment and later instanser are added with "/". */
  lemma InstansOpensFragment(c: Court, st: UriState, slugs: map<string, string>)
    requires HasCourt(Some(c))
    ensures '#' in ChildState(InstansNode(Some(c)), st, slugs).value.uri
  {
    var u := st.uri + Separator(st.uri) + Slug(c, slugs);
    if '#' in st.uri {
      var i :| 0 <= i < |st.uri| && st.uri[i] == '#';
      assert u[i] == '#';
    } else {
      assert u[|st.uri|] == '#';
    }
  }

  /** Under one section, paragraphs (and delmål) with different ordinals get different URIs. */
  lemma OrdinalsDistinguish(a: string, b: string, st: UriState, slugs: map<string, string>)
    requires a != b
    ensures NodeUri(OrderedParagraphNode(a), st, slugs) != NodeUri(OrderedParagraphNode(b), st, slugs)
    ensures NodeUri(DelmalNode(a), st, slugs) != NodeUri(DelmalNode(b), st, slugs)
  {
    var p := st.uri + Separator(st.uri) + "P";
    assert (p + a)[|p|..] == a && (p + b)[|p|..] == b;
    var q := st.uri + "#";
    assert (q + a)[|q|..] == a && (q + b)[|q|..] == b;
  }

  /** Along delmål, instans and ordered paragraph under a document URI without a fragment, the paragraph's
      URI is the document URI, "#" and the delmål ordinal, "/" and the court slug, "/P" and its ordinal. */
  lemma NestedParagraphUri(d: string, c: Court, o: string, st: UriState, slugs: map<string, string>)
    requires '#' !in st.uri && HasCourt(Some(c))
    ensures var s1 := ChildState(DelmalNode(d), st, slugs).value;
            var s2 := ChildState(InstansNode(Some(c)), s1, slugs).value;
            NodeUri(OrderedParagraphNode(o), s2, slugs) == Some(st.uri + "#" + d + "/" + Slug(c, slugs) + "/" + "P" + o)
  {
  }
}
