/**
 * `DV.sanitize_body` and `DV.glue_shortlines`: the clean-up of a court
 * report's body before parsing (reconstructing sections from a body with a
 * blank line after every line, splitting smushed headings and part markers,
 * inserting the missing first part marker), and the gluing of short lines
 * in a notis.
 */
module DvBody {
  import opened Wrappers
  import opened PyStr
  import opened DvParser

  /** A chunk of the raw body: a line of text, or (for a notisfall) a list of lines. */
  datatype Chunk = Line(text: string) | Lines(texts: seq<string>)

  /** A paragraph of the cleaned body: its lines. */
  type Paragraph = seq<string>

  const LongLine := 60
  const ShortSentence := 45
  const Members := "Ledamöter: "

  /** `[A-ZÅÄÖ]`. */
  predicate IsCapital(c: char)
  {
    'A' <= c <= 'Z' || c == 'Å' || c == 'Ä' || c == 'Ö'
  }

  /** The concatenation of some strings, built from the end. */
  function Concat(ss: seq<string>): string
  {
    if ss == [] then "" else Concat(ss[..|ss| - 1]) + ss[|ss| - 1]
  }

  // ------------------------------------------------------------ reconstruction

  /** `re.match(r"\d\.\s+[A-ZÅÄÖ]", s)`: the start of an ordered paragraph. */
  predicate StartsNumbered(s: string)
  {
    |s| >= 2 && IsDigit(s[0]) && s[1] == '.' &&
    var k := SpaceRun(s[2..]);
    k >= 1 && 2 + k < |s| && IsCapital(s[2 + k])
  }

  function SpaceRun(s: string): (n: nat)
    ensures n <= |s|
  {
    if |s| > 0 && IsSpace(s[0]) then 1 + SpaceRun(s[1..]) else 0
  }

  /**
   * Whether a section ends after line `idx`: the line is all capitals, or
   * the next is, or the line is a short sentence and the next starts one,
   * or the next starts an ordered paragraph. `None` where the source indexes
   * an empty line (`line[-1]`, `rawbody[idx+1][0]`).
   */
  function EndsSection(lines: seq<string>, idx: nat): (r: Option<bool>)
    requires idx < |lines|
    ensures r.None? ==> idx + 1 < |lines| && (lines[idx] == "" || lines[idx + 1] == "")
  {
    var line := lines[idx];
    if IsUpperStr(line) then Some(true)
    else if idx + 1 < |lines| && IsUpperStr(lines[idx + 1]) then Some(true)
    else if idx + 1 < |lines| && |line| < ShortSentence && line == "" then None
    else if idx + 1 < |lines| && |line| < ShortSentence && (line[|line| - 1] in ".?0123456789") && lines[idx + 1] == "" then None
    else if idx + 1 < |lines| && |line| < ShortSentence && (line[|line| - 1] in ".?0123456789") && IsUpperChar(lines[idx + 1][0]) then Some(true)
    else Some(idx + 1 < |lines| && StartsNumbered(lines[idx + 1]))
  }

  /** The reconstruction loop's state: the sections so far and the one being built. */
  datatype Regroup = Regroup(sections: seq<string>, current: string)

  /** The reconstruction loop after the first `k` lines. */
  function RegroupPrefix(lines: seq<string>, k: nat): Option<Regroup>
    requires k <= |lines|
  {
    if k == 0 then Some(Regroup([], ""))
    else
      match RegroupPrefix(lines, k - 1)
      case None => None
      case Some(g) =>
        match EndsSection(lines, k - 1)
        case None => None
        case Some(ends) =>
          if ends then Some(Regroup(g.sections + [g.current + "\n" + lines[k - 1]], ""))
          else Some(g.(current := g.current + "\n" + lines[k - 1]))
  }

  /** The text the reconstruction works on: every line with a newline before it. */
  function Prefixed(lines: seq<string>): string
  {
    if lines == [] then "" else Prefixed(lines[..|lines| - 1]) + "\n" + lines[|lines| - 1]
  }

  /** The reconstruction as written: the sections, without the lines still gathered in `currentline`. */
  function ReconstructedAsWritten(lines: seq<string>): (r: Option<seq<string>>)
    ensures r.Some? <==> RegroupPrefix(lines, |lines|).Some?
    ensures r.Some? ==> Concat(r.value) + RegroupPrefix(lines, |lines|).value.current == Prefixed(lines)
  {
    RegroupKeepsText(lines, |lines|);
    assert lines[..|lines|] == lines;
    match RegroupPrefix(lines, |lines|)
    case None => None
    case Some(g) => Some(g.sections)
  }

  /** The reconstruction with the last section kept. */
  function Reconstructed(lines: seq<string>): (r: Option<seq<string>>)
    ensures r.Some? ==> Concat(r.value) == Prefixed(lines)
    ensures r.None? <==> ReconstructedAsWritten(lines).None?
  {
    RegroupKeepsText(lines, |lines|);
    assert lines[..|lines|] == lines;
    match RegroupPrefix(lines, |lines|)
    case None => None
    case Some(g) =>
      if g.current != "" then
        assert Concat(g.sections + [g.current]) == Concat(g.sections) + g.current by {
          assert (g.sections + [g.current])[..|g.sections|] == g.sections;
        }
        Some(g.sections + [g.current])
      else Some(g.sections)
  }

  /** The sections and the line being built hold all of the text read so far, in order. */
  lemma {:induction false} RegroupKeepsText(lines: seq<string>, k: nat)
    requires k <= |lines|
    ensures RegroupPrefix(lines, k).Some? ==>
      Concat(RegroupPrefix(lines, k).value.sections) + RegroupPrefix(lines, k).value.current == Prefixed(lines[..k])
  {
    if k > 0 && RegroupPrefix(lines, k).Some? {
      RegroupKeepsText(lines, k - 1);
      var g := RegroupPrefix(lines, k - 1).value;
      var line := lines[k - 1];
      assert lines[..k][..k - 1] == lines[..k - 1];
      assert Prefixed(lines[..k]) == Prefixed(lines[..k - 1]) + "\n" + line;
      if EndsSection(lines, k - 1) == Some(true) {
        var s := g.sections + [g.current + "\n" + line];
        assert s[..|s| - 1] == g.sections;
      }
    }
  }

  /** Once the loop has failed it stays failed. */
  lemma {:induction false} RegroupFails(lines: seq<string>, k: nat, m: nat)
    requires k <= m <= |lines| && RegroupPrefix(lines, k).None?
    ensures RegroupPrefix(lines, m).None?
    decreases m
  {
    if m > k { RegroupFails(lines, k, m - 1); }
  }

  /** The loss: two short lines that end no section vanish from the reconstructed body. */
  lemma ReconstructionDropsLastSection()
    ensures ReconstructedAsWritten(["a", "b"]) == Some([])
    ensures Prefixed(["a", "b"]) == "\na\nb"
    ensures Reconstructed(["a", "b"]) == Some(["\na\nb"])
  {
    var lines := ["a", "b"];
    assert !IsUpperStr("a") && !IsUpperStr("b");
    assert !StartsNumbered("b");
    assert EndsSection(lines, 0) == Some(false);
    assert EndsSection(lines, 1) == Some(false);
    assert RegroupPrefix(lines, 1) == Some(Regroup([], "" + "\n" + "a"));
    assert RegroupPrefix(lines, 2) == Some(Regroup([], "" + "\n" + "a" + "\n" + "b"));
    assert "" + "\n" + "a" + "\n" + "b" == "\na\nb";
    assert ["a", "b"][..1] == ["a"];
    assert Prefixed(["a"]) == "" + "\n" + "a" by { assert ["a"][..0] == []; }
  }

  /** `reconstruct sections` applies: the first chunk is a line and every line but the member list is shorter than 60. */
  predicate AllLines(rawbody: seq<Chunk>)
  {
    forall i :: 0 <= i < |rawbody| ==> rawbody[i].Line?
  }

  function Texts(rawbody: seq<Chunk>): (r: seq<string>)
    requires AllLines(rawbody)
    ensures |r| == |rawbody|
  {
    seq(|rawbody|, i requires 0 <= i < |rawbody| => rawbody[i].text)
  }

  function AsChunks(lines: seq<string>): (r: seq<Chunk>)
    ensures AllLines(r) && |r| == |lines|
  {
    seq(|lines|, i requires 0 <= i < |lines| => Line(lines[i]))
  }

  /**
   * The body the paragraph loop sees: reconstructed when the first chunk is
   * a line and every line not starting "Ledamöter: " is shorter than 60.
   * `None` for an empty body (`rawbody[0]`), a list among lines
   * (`line.startswith`), or no line to take the maximum of.
   */
  function Prepared(rawbody: seq<Chunk>): (r: Option<seq<Chunk>>)
    ensures r.Some? && |rawbody| > 0 && rawbody[0].Line? ==> AllLines(r.value)
  {
    if rawbody == [] then None
    else if !rawbody[0].Line? then Some(rawbody)
    else if !AllLines(rawbody) then None
    else
      var lines := Texts(rawbody);
      if forall i :: 0 <= i < |lines| ==> StartsWith(lines[i], Members) then None
      else if forall i :: 0 <= i < |lines| && !StartsWith(lines[i], Members) ==> |lines[i]| < LongLine then
        match Reconstructed(lines)
        case None => None
        case Some(sections) => Some(AsChunks(sections))
      else Some(rawbody)
  }

  // ------------------------------------------------------------ pieces of a line

  /** `re.sub(r"^(\d{1,3})([A-ZÅÄÖ])", r"\1. \2", x)`: "18Marknadsandelar" becomes "18. Marknadsandelar". */
  function Renumbered(x: string): (r: string)
    ensures r == x || exists k :: 1 <= k <= 3 && k < |x| && r == x[..k] + ". " + x[k..] && IsDigits(x[..k])
  {
    var k := DigitsAt(x);
    if 1 <= k <= 3 && k < |x| && IsCapital(x[k]) then x[..k] + ". " + x[k..] else x
  }

  /** The text up to the first newline (what `.*` matches). */
  function UpToNewline(s: string): (r: string)
    ensures r <= s && '\n' !in r
    ensures r != s ==> s[|r|] == '\n'
  {
    if s == [] || s[0] == '\n' then [] else [s[0]] + UpToNewline(s[1..])
  }

  const HeadingWords: seq<string> := ["KÄRANDE", "SVARANDE", "SAKEN"]

  /** `re.match("(KÄRANDE|SVARANDE|SAKEN)([A-ZÅÄÖ].*)", x)`: "SAKENMarknadsföring..." is a heading and a line. */
  function SmushedHeading(x: string): (r: Option<(string, string)>)
    ensures r.Some? ==> r.value.0 in HeadingWords && r.value.0 + r.value.1 <= x
    ensures r.Some? ==> r.value.1 != "" && IsCapital(r.value.1[0]) && '\n' !in r.value.1
  {
    if StartsWith(x, "KÄRANDE") && |x| > 7 && IsCapital(x[7]) then Some(("KÄRANDE", UpToNewline(x[7..])))
    else if StartsWith(x, "SVARANDE") && |x| > 8 && IsCapital(x[8]) then Some(("SVARANDE", UpToNewline(x[8..])))
    else if StartsWith(x, "SAKEN") && |x| > 5 && IsCapital(x[5]) then Some(("SAKEN", UpToNewline(x[5..])))
    else None
  }

  /** Number of characters at the end of `s` that satisfy `upper ? c == 'I' : c in "iI"`. */
  function TrailingIs(s: string, ignoreCase: bool): (n: nat)
    ensures n <= |s|
    ensures forall i :: |s| - n <= i < |s| ==> s[i] == 'I' || (ignoreCase && s[i] == 'i')
    ensures n < |s| ==> !(s[|s| - n - 1] == 'I' || (ignoreCase && s[|s| - n - 1] == 'i'))
  {
    if |s| > 0 && (s[|s| - 1] == 'I' || (ignoreCase && s[|s| - 1] == 'i')) then 1 + TrailingIs(s[..|s| - 1], ignoreCase) else 0
  }

  /**
   * `re.match(r"(.*[\.\) ])(I+)$", x, re.DOTALL)`: a part marker smushed onto
   * the end of a line, as in "fastställer HovR:ns domslut.II".
   */
  function SmushedMarker(x: string): (r: Option<(string, string)>)
    ensures r.Some? ==> r.value.0 + r.value.1 == x && r.value.1 != "" && r.value.0 != ""
    ensures r.Some? ==> r.value.0[|r.value.0| - 1] in ". )" && forall i :: 0 <= i < |r.value.1| ==> r.value.1[i] == 'I'
  {
    var n := TrailingIs(x, false);
    if 1 <= n < |x| && x[|x| - n - 1] in ". )" then
      assert x[..|x| - n] + x[|x| - n..] == x;
      Some((x[..|x| - n], x[|x| - n..]))
    else None
  }

  /** `re.search("mellandomstema I+$", x, flags=re.IGNORECASE)`. */
  predicate Mellandomstema(x: string)
  {
    var n := TrailingIs(x, true);
    n >= 1 && EndsWith(Lower(x[..|x| - n]), "mellandomstema ")
  }

  /** `rawbody[idx+1][0].isupper()`; `None` where that indexes an empty line or list. */
  function NextStartsUpper(c: Chunk): Option<bool>
  {
    match c
    case Line(s) => if s == "" then None else Some(IsUpperChar(s[0]))
    case Lines(ss) => if ss == [] then None else Some(IsUpperStr(ss[0]))
  }

  lemma ConcatOne(a: string)
    ensures Concat([a]) == a
  {
    assert [a][..0] == [];
  }

  lemma ConcatTwo(a: string, b: string)
    ensures Concat([a, b]) == a + b
  {
    assert [a, b][..1] == [a];
    ConcatOne(a);
  }

  lemma {:induction false} UpToNewlineAll(s: string)
    requires '\n' !in s
    ensures UpToNewline(s) == s
  {
    if s != [] { UpToNewlineAll(s[1..]); }
  }

  /**
   * The lines a (renumbered) line becomes: split at a smushed heading, or at
   * a smushed part marker when the next chunk starts with a capital and this
   * is no "mellandomstema I" (an error when there is no next chunk), or kept
   * whole.
   */
  function LinePieces(x: string, next: Option<Chunk>): (r: Option<seq<string>>)
    ensures r.Some? ==> 1 <= |r.value| <= 2
    ensures r.Some? && '\n' !in x ==> Concat(r.value) == x
    ensures r.None? ==> SmushedMarker(x).Some?
  {
    match SmushedHeading(x)
    case Some((w, rest)) =>
      ConcatTwo(w, rest);
      assert '\n' !in x ==> Concat([w, rest]) == x by {
        if '\n' !in x {
          UpToNewlineAll(x[|w|..]);
          assert x == w + x[|w|..];
        }
      }
      Some([w, rest])
    case None =>
      ConcatOne(x);
      match SmushedMarker(x)
      case None => Some([x])
      case Some((before, numeral)) =>
        match next
        case None => None
        case Some(c) =>
          match NextStartsUpper(c)
          case None => None
          case Some(upper) =>
            if upper && !Mellandomstema(x) then
              ConcatTwo(before, numeral);
              Some([before, numeral])
            else Some([x])
  }

  /** The lines chunk `idx` becomes. */
  function Pieces(body: seq<Chunk>, idx: nat): (r: Option<seq<string>>)
    requires idx < |body| && body[idx].Line?
  {
    LinePieces(Renumbered(body[idx].text), if idx + 1 < |body| then Some(body[idx + 1]) else None)
  }

  // ------------------------------------------------------------ part markers seen

  /** The numeral of a paragraph that is a lone part marker. */
  function MarkerOf(par: Paragraph): Option<string>
  {
    if |par| == 1 && PartMarker(par[0]).Some? then Some(PartMarker(par[0]).value.0) else None
  }

  /** The pieces as one-line paragraphs. */
  function Singles(ps: seq<string>): (r: seq<Paragraph>)
    ensures |r| == |ps| && forall i :: 0 <= i < |ps| ==> r[i] == [ps[i]]
  {
    if ps == [] then [] else Singles(ps[..|ps| - 1]) + [[ps[|ps| - 1]]]
  }

  /** The numerals among some optional numerals. */
  function SeenIn(ms: seq<Option<string>>): set<string>
  {
    if ms == [] then {}
    else SeenIn(ms[..|ms| - 1]) + (if ms[|ms| - 1].Some? then {ms[|ms| - 1].value} else {})
  }

  lemma {:induction false} SeenInIff(ms: seq<Option<string>>)
    ensures forall n :: n in SeenIn(ms) <==> exists i :: 0 <= i < |ms| && ms[i] == Some(n)
  {
    if ms != [] {
      var init := ms[..|ms| - 1];
      SeenInIff(init);
      forall n ensures n in SeenIn(ms) <==> exists i :: 0 <= i < |ms| && ms[i] == Some(n) {
        if n in SeenIn(init) {
          var i :| 0 <= i < |init| && init[i] == Some(n);
          assert ms[i] == init[i];
        }
        if exists i :: 0 <= i < |ms| && ms[i] == Some(n) {
          var i :| 0 <= i < |ms| && ms[i] == Some(n);
          if i < |init| { assert init[i] == ms[i]; }
        }
      }
    }
  }

  /** Each piece's numeral, if it is a part marker. */
  function NumeralsOf(ps: seq<string>): (r: seq<Option<string>>)
    ensures |r| == |ps|
  {
    seq(|ps|, i requires 0 <= i < |ps| => MarkerOf([ps[i]]))
  }

  /** A line chunk's lines and their numerals as part markers. */
  type Split = Option<(seq<string>, seq<Option<string>>)>

  /** Each chunk's lines and numerals, computed once (unused for a list chunk). */
  function PiecesOf(body: seq<Chunk>): (r: seq<Split>)
    ensures |r| == |body|
  {
    seq(|body|, i requires 0 <= i < |body| =>
      if body[i].Line? && Pieces(body, i).Some? then Some((Pieces(body, i).value, NumeralsOf(Pieces(body, i).value))) else None)
  }

  /** The paragraph loop after the first `k` chunks, given each chunk's lines: the paragraphs and the numerals seen. */
  function Collect(body: seq<Chunk>, outs: seq<Split>, k: nat): Option<(seq<Paragraph>, set<string>)>
    requires k <= |body| == |outs|
  {
    if k == 0 then Some(([], {}))
    else
      match Collect(body, outs, k - 1)
      case None => None
      case Some((res, seen)) =>
        match body[k - 1]
        case Lines(ss) => Some((res + [ss], seen))
        case Line(_) =>
          match outs[k - 1]
          case None => None
          case Some((ps, ns)) => Some((res + Singles(ps), seen + SeenIn(ns)))
  }

  lemma {:induction false} CollectFails(body: seq<Chunk>, outs: seq<Split>, k: nat, m: nat)
    requires k <= m <= |body| == |outs| && Collect(body, outs, k).None?
    ensures Collect(body, outs, m).None?
    decreases m
  {
    if m > k { CollectFails(body, outs, k, m - 1); }
  }

  /** One line chunk of the paragraph loop: its pieces are added and their numerals seen. */
  lemma CollectLine(body: seq<Chunk>, k: nat, res: seq<Paragraph>, seen: set<string>, ps: seq<string>)
    requires k < |body| && body[k].Line? && Pieces(body, k) == Some(ps)
    requires Collect(body, PiecesOf(body), k) == Some((res, seen))
    ensures Collect(body, PiecesOf(body), k + 1) == Some((res + Singles(ps), seen + SeenIn(NumeralsOf(ps))))
  {
    assert PiecesOf(body)[k] == Some((ps, NumeralsOf(ps)));
  }

  /** A line chunk without pieces fails the paragraph loop. */
  lemma CollectNoPieces(body: seq<Chunk>, k: nat)
    requires k < |body| && body[k].Line? && Pieces(body, k).None?
    ensures Collect(body, PiecesOf(body), k + 1).None?
  {
    assert PiecesOf(body)[k].None?;
  }

  /** The first part marker inserted when some part was marked but part "I" was not. */
  function WithFirstPart(res: seq<Paragraph>, seen: set<string>): seq<Paragraph>
  {
    if seen != {} && "I" !in seen then [["I"]] + res else res
  }

  /** `sanitize_body`. */
  function SanitizeBodySpec(rawbody: seq<Chunk>): Option<seq<Paragraph>>
  {
    match Prepared(rawbody)
    case None => None
    case Some(body) =>
      match Collect(body, PiecesOf(body), |body|)
      case None => None
      case Some((res, seen)) => Some(WithFirstPart(res, seen))
  }

  // ------------------------------------------------------------ the method

  /** The reconstruction loop, accumulating `currentline` and the finished sections. */
  method Reconstruct(lines: seq<string>) returns (r: Option<seq<string>>)
    ensures r == Reconstructed(lines)
  {
    var sections: seq<string> := [];
    var current := "";
    for idx := 0 to |lines|
      invariant RegroupPrefix(lines, idx) == Some(Regroup(sections, current))
    {
      var ends := EndsSection(lines, idx);
      if ends.None? {
        RegroupFails(lines, idx + 1, |lines|);
        return None;
      }
      if ends.value {
        sections := sections + [current + "\n" + lines[idx]];
        current := "";
      } else {
        current := current + "\n" + lines[idx];
      }
    }
    if current != "" {
      sections := sections + [current];
    }
    return Some(sections);
  }

  /** The inner loop over a line chunk's pieces: each becomes a paragraph, and each part marker's numeral is seen. */
  method AddPieces(result: seq<Paragraph>, seen: set<string>, pieces: seq<string>) returns (result': seq<Paragraph>, seen': set<string>)
    ensures result' == result + Singles(pieces)
    ensures seen' == seen + SeenIn(NumeralsOf(pieces))
  {
    result', seen' := result, seen;
    for j := 0 to |pieces|
      invariant result' == result + Singles(pieces[..j])
      invariant seen' == seen + SeenIn(NumeralsOf(pieces)[..j])
    {
      assert pieces[..j + 1][..j] == pieces[..j];
      assert NumeralsOf(pieces)[..j + 1][..j] == NumeralsOf(pieces)[..j];
      assert [pieces[j]][0] == pieces[j];
      var m := PartMarker(pieces[j]);
      if m.Some? {
        seen' := seen' + {m.value.0};
      }
      result' := result' + [[pieces[j]]];
    }
    assert pieces[..|pieces|] == pieces;
    assert NumeralsOf(pieces)[..|pieces|] == NumeralsOf(pieces);
  }

  /** `sanitize_body`, with the last reconstructed section kept. */
  method SanitizeBody(rawbody: seq<Chunk>) returns (r: Option<seq<Paragraph>>)
    ensures r == SanitizeBodySpec(rawbody)
  {
    var body := Prepared(rawbody);
    if body.None? {
      return None;
    }
    var chunks := body.value;
    var result: seq<Paragraph> := [];
    var seen: set<string> := {};
    for idx := 0 to |chunks|
      invariant Collect(chunks, PiecesOf(chunks), idx) == Some((result, seen))
    {
      match chunks[idx]
      case Lines(ss) =>
        result := result + [ss];
      case Line(_) =>
        var ps := Pieces(chunks, idx);
        if ps.None? {
          CollectNoPieces(chunks, idx);
          CollectFails(chunks, PiecesOf(chunks), idx + 1, |chunks|);
          return None;
        }
        CollectLine(chunks, idx, result, seen, ps.value);
        result, seen := AddPieces(result, seen, ps.value);
    }
    if seen != {} && "I" !in seen {
      result := [["I"]] + result;
    }
    return Some(result);
  }

  // ------------------------------------------------------------ first part marker

  /** `mark` gives each piece's numeral, as `ns` records it. */
  predicate Marked(ps: seq<string>, ns: seq<Option<string>>, mark: Paragraph -> Option<string>)
  {
    |ns| == |ps| && forall j :: 0 <= j < |ps| ==> ns[j] == mark([ps[j]])
  }

  /** Every numeral seen has a marker paragraph. */
  predicate Witnessed(res: seq<Paragraph>, seen: set<string>, mark: Paragraph -> Option<string>)
  {
    forall n :: n in seen ==> exists i :: 0 <= i < |res| && mark(res[i]) == Some(n)
  }

  /** Every marker paragraph's numeral was seen. */
  predicate AllSeen(res: seq<Paragraph>, seen: set<string>, mark: Paragraph -> Option<string>)
  {
    forall i :: 0 <= i < |res| && mark(res[i]).Some? ==> mark(res[i]).value in seen
  }

  lemma AddPiecesWitnessed(res: seq<Paragraph>, seen: set<string>, ps: seq<string>, ns: seq<Option<string>>, mark: Paragraph -> Option<string>)
    requires Marked(ps, ns, mark) && Witnessed(res, seen, mark)
    ensures Witnessed(res + Singles(ps), seen + SeenIn(ns), mark)
  {
    var res' := res + Singles(ps);
    SeenInIff(ns);
    forall n | n in seen + SeenIn(ns) ensures exists i :: 0 <= i < |res'| && mark(res'[i]) == Some(n) {
      if n in seen {
        var i :| 0 <= i < |res| && mark(res[i]) == Some(n);
        assert res'[i] == res[i];
      } else {
        var j :| 0 <= j < |ns| && ns[j] == Some(n);
        assert res'[|res| + j] == [ps[j]];
      }
    }
  }

  lemma AddPiecesSeen(res: seq<Paragraph>, seen: set<string>, ps: seq<string>, ns: seq<Option<string>>, mark: Paragraph -> Option<string>)
    requires Marked(ps, ns, mark) && AllSeen(res, seen, mark)
    ensures AllSeen(res + Singles(ps), seen + SeenIn(ns), mark)
  {
    var res' := res + Singles(ps);
    SeenInIff(ns);
    forall i | 0 <= i < |res'| && mark(res'[i]).Some? ensures mark(res'[i]).value in seen + SeenIn(ns) {
      if i < |res| {
        assert res'[i] == res[i];
      } else {
        assert res'[i] == [ps[i - |res|]];
        assert ns[i - |res|] == mark(res'[i]);
      }
    }
  }

  lemma AddListWitnessed(res: seq<Paragraph>, seen: set<string>, ss: seq<string>, mark: Paragraph -> Option<string>)
    requires Witnessed(res, seen, mark)
    ensures Witnessed(res + [ss], seen, mark)
  {
    forall n | n in seen ensures exists i :: 0 <= i < |res + [ss]| && mark((res + [ss])[i]) == Some(n) {
      var i :| 0 <= i < |res| && mark(res[i]) == Some(n);
      assert (res + [ss])[i] == res[i];
    }
  }

  /**
   * Every numeral seen has its marker paragraph, and, in a body of lines,
   * every marker paragraph was seen; for any `mark` that gives each piece's
   * numeral.
   */
  lemma {:induction false} CollectMarkers(body: seq<Chunk>, outs: seq<Split>, k: nat, mark: Paragraph -> Option<string>)
    requires k <= |body| == |outs| && Collect(body, outs, k).Some?
    requires forall i :: 0 <= i < |outs| && outs[i].Some? ==> Marked(outs[i].value.0, outs[i].value.1, mark)
    ensures Witnessed(Collect(body, outs, k).value.0, Collect(body, outs, k).value.1, mark)
    ensures AllLines(body) ==> AllSeen(Collect(body, outs, k).value.0, Collect(body, outs, k).value.1, mark)
  {
    if k > 0 {
      CollectMarkers(body, outs, k - 1, mark);
      var (res, seen) := Collect(body, outs, k - 1).value;
      match body[k - 1]
      case Line(_) =>
        var (ps, ns) := outs[k - 1].value;
        AddPiecesWitnessed(res, seen, ps, ns, mark);
        if AllLines(body) { AddPiecesSeen(res, seen, ps, ns, mark); }
      case Lines(ss) =>
        AddListWitnessed(res, seen, ss, mark);
    }
  }

  /**
   * When the body is made of lines, a cleaned body with any part marker has
   * the marker of part "I": inserted at the front when it was missing.
   */
  lemma FirstPartMarked(rawbody: seq<Chunk>, i: nat)
    requires SanitizeBodySpec(rawbody).Some? && rawbody != [] && rawbody[0].Line?
    requires i < |SanitizeBodySpec(rawbody).value| && MarkerOf(SanitizeBodySpec(rawbody).value[i]).Some?
    ensures exists j :: 0 <= j < |SanitizeBodySpec(rawbody).value| && MarkerOf(SanitizeBodySpec(rawbody).value[j]) == Some("I")
  {
    var body := Prepared(rawbody).value;
    var (res, seen) := Collect(body, PiecesOf(body), |body|).value;
    var r := SanitizeBodySpec(rawbody).value;
    CollectMarkers(body, PiecesOf(body), |body|, MarkerOf);
    assert r == WithFirstPart(res, seen);
    assert MarkerOf(["I"]) == Some("I") by { PartMarkerComplete("I", "I", "", "", ""); }
    if "I" in seen {
      var j :| 0 <= j < |res| && MarkerOf(res[j]) == Some("I");
      assert r[j] == res[j];
    } else {
      assert seen != {} by {
        if r == res { assert MarkerOf(res[i]).value in seen; }
      }
      assert r[0] == ["I"];
    }
  }

  /**
   * The numeral of piece `j` of chunk `k` when the chunk is a line and that
   * piece is a part marker, as `outs` records it (`PiecesOf` records each
   * piece's `MarkerOf`).
   */
  function PieceMarker(body: seq<Chunk>, outs: seq<Split>, k: nat, j: nat): Option<string>
    requires k < |body| == |outs|
  {
    if body[k].Line? && outs[k].Some? && j < |outs[k].value.1| then outs[k].value.1[j] else None
  }

  /** The numerals seen after `k` chunks are exactly those of the part-marker pieces of the line chunks among them. */
  lemma {:induction false} CollectSeen(body: seq<Chunk>, outs: seq<Split>, k: nat)
    requires k <= |body| == |outs| && Collect(body, outs, k).Some?
    ensures forall n :: n in Collect(body, outs, k).value.1 <==>
      exists i, j :: 0 <= i < k && PieceMarker(body, outs, i, j) == Some(n)
  {
    if k > 0 {
      CollectSeen(body, outs, k - 1);
      var seen := Collect(body, outs, k - 1).value.1;
      var seen' := Collect(body, outs, k).value.1;
      var ns: seq<Option<string>> := [];
      if body[k - 1].Line? { ns := outs[k - 1].value.1; }
      assert seen' == seen + SeenIn(ns);
      SeenInIff(ns);
      forall n ensures n in seen' <==> exists i, j :: 0 <= i < k && PieceMarker(body, outs, i, j) == Some(n) {
        if exists i, j :: 0 <= i < k && PieceMarker(body, outs, i, j) == Some(n) {
          var i: nat, j: nat :| 0 <= i < k && PieceMarker(body, outs, i, j) == Some(n);
          if i == k - 1 { assert ns[j] == Some(n); } else { assert n in seen; }
        }
        if n in SeenIn(ns) {
          var j :| 0 <= j < |ns| && ns[j] == Some(n);
          assert PieceMarker(body, outs, k - 1, j) == Some(n);
        }
      }
    }
  }

  /**
   * The cleaned body is the paragraph loop's output with a paragraph "I" put
   * in front exactly when some piece of a line chunk was a part marker and
   * none was the marker of part "I"; otherwise it is that output unchanged.
   */
  lemma FirstPartInserted(rawbody: seq<Chunk>)
    requires SanitizeBodySpec(rawbody).Some?
    ensures var body := Prepared(rawbody).value;
      var res := Collect(body, PiecesOf(body), |body|).value.0;
      var inserted := (exists i, j :: 0 <= i < |body| && PieceMarker(body, PiecesOf(body), i, j).Some?) &&
        forall i, j :: 0 <= i < |body| ==> PieceMarker(body, PiecesOf(body), i, j) != Some("I");
      (SanitizeBodySpec(rawbody).value == [["I"]] + res <==> inserted) &&
      (SanitizeBodySpec(rawbody).value == res <==> !inserted)
  {
    var body := Prepared(rawbody).value;
    var (res, seen) := Collect(body, PiecesOf(body), |body|).value;
    CollectSeen(body, PiecesOf(body), |body|);
    var r := SanitizeBodySpec(rawbody).value;
    assert r == WithFirstPart(res, seen);
    assert |[["I"]] + res| != |res|;
    if seen != {} {
      var n :| n in seen;
      var i: nat, j: nat :| 0 <= i < |body| && PieceMarker(body, PiecesOf(body), i, j) == Some(n);
    }
  }

  /** The inserted marker comes only when no part "I" was seen, and adds exactly one paragraph. */
  lemma FirstPartInsertedOnce(res: seq<Paragraph>, seen: set<string>)
    ensures |WithFirstPart(res, seen)| == |res| + (if seen != {} && "I" !in seen then 1 else 0)
    ensures "I" in seen ==> WithFirstPart(res, seen) == res
  {
  }

  // ------------------------------------------------------------ glue_shortlines

  const ShortLen := 62

  /** The generator's state: the groups yielded and the buffered group, if any. */
  datatype Glue = Glue(groups: seq<seq<string>>, buffer: Option<seq<string>>)

  /**
   * One line of `glue_shortlines`: a line starting in lower case continues a
   * buffered group whose last line is short; otherwise the buffer is yielded
   * and a short line starts a new one. A long line is yielded alone when
   * `keepLong`, and dropped, as written, otherwise. `None` where the source
   * indexes an empty line.
   */
  function GlueStep(st: Glue, line: string, keepLong: bool): (r: Option<Glue>)
    requires st.buffer.Some? ==> st.buffer.value != []
    ensures r.Some? && r.value.buffer.Some? ==> r.value.buffer.value != []
  {
    var b := st.buffer;
    if b.Some? && |b.value[|b.value| - 1]| < ShortLen && line == "" then None
    else if b.Some? && |b.value[|b.value| - 1]| < ShortLen && IsLowerChar(line[0]) then Some(st.(buffer := Some(b.value + [line])))
    else
      var groups := if b.Some? then st.groups + [b.value] else st.groups;
      if |line| < ShortLen then Some(Glue(groups, Some([line])))
      else if keepLong then Some(Glue(groups + [[line]], None))
      else Some(Glue(groups, None))
  }

  function GluePrefix(lines: seq<string>, k: nat, keepLong: bool): (r: Option<Glue>)
    requires k <= |lines|
    ensures r.Some? && r.value.buffer.Some? ==> r.value.buffer.value != []
  {
    if k == 0 then Some(Glue([], None))
    else
      match GluePrefix(lines, k - 1, keepLong)
      case None => None
      case Some(st) => GlueStep(st, lines[k - 1], keepLong)
  }

  lemma {:induction false} GlueFails(lines: seq<string>, k: nat, m: nat, keepLong: bool)
    requires k <= m <= |lines| && GluePrefix(lines, k, keepLong).None?
    ensures GluePrefix(lines, m, keepLong).None?
    decreases m
  {
    if m > k { GlueFails(lines, k, m - 1, keepLong); }
  }

  /** The groups yielded, the buffer last. */
  function Yielded(st: Glue): seq<seq<string>>
  {
    if st.buffer.Some? then st.groups + [st.buffer.value] else st.groups
  }

  /** `glue_shortlines` as written. */
  function GlueAsWritten(lines: seq<string>): Option<seq<seq<string>>>
  {
    match GluePrefix(lines, |lines|, false)
    case None => None
    case Some(st) => Some(Yielded(st))
  }

  /** `glue_shortlines` with long lines yielded alone: every line in one group, in order. */
  function Glued(lines: seq<string>): (r: Option<seq<seq<string>>>)
    ensures r.Some? ==> Concat2(r.value) == lines
  {
    match GluePrefix(lines, |lines|, true)
    case None => None
    case Some(st) =>
      GlueKeepsLines(lines, |lines|);
      assert lines[..|lines|] == lines;
      Some(Yielded(st))
  }

  /** The lines of some groups, in order. */
  function Concat2(groups: seq<seq<string>>): seq<string>
  {
    if groups == [] then [] else Concat2(groups[..|groups| - 1]) + groups[|groups| - 1]
  }

  /** With long lines kept, the groups and the buffer hold every line read, in order. */
  lemma {:induction false} GlueKeepsLines(lines: seq<string>, k: nat)
    requires k <= |lines| && GluePrefix(lines, k, true).Some?
    ensures Concat2(Yielded(GluePrefix(lines, k, true).value)) == lines[..k]
  {
    if k > 0 {
      GlueKeepsLines(lines, k - 1);
      var st := GluePrefix(lines, k - 1, true).value;
      var st' := GluePrefix(lines, k, true).value;
      var line := lines[k - 1];
      assert lines[..k] == lines[..k - 1] + [line];
      var b := st.buffer;
      if b.Some? && |b.value[|b.value| - 1]| < ShortLen && IsLowerChar(line[0]) {
        var y := st.groups + [b.value + [line]];
        assert y[..|y| - 1] == st.groups;
        var y0 := st.groups + [b.value];
        assert y0[..|y0| - 1] == st.groups;
      } else {
        var groups := if b.Some? then st.groups + [b.value] else st.groups;
        assert Concat2(groups) == lines[..k - 1] by {
          if b.Some? { assert Yielded(st) == groups; } else { assert Yielded(st) == groups; }
        }
        var y := groups + [[line]];
        assert y[..|y| - 1] == groups;
      }
    }
  }

  /** The loss: a long line that continues nothing is not yielded at all. */
  lemma GlueDropsLongLine(line: string)
    requires |line| >= ShortLen
    ensures GlueAsWritten([line]) == Some([])
    ensures Glued([line]) == Some([[line]])
  {
    assert [line][0] == line;
    assert GluePrefix([line], 0, true) == Some(Glue([], None));
    assert GluePrefix([line], 1, false) == Some(Glue([], None));
    assert GluePrefix([line], 1, true) == Some(Glue([] + [[line]], None));
  }

  /** The generator: `buffer` and the groups yielded so far. */
  method GlueShortlines(lines: seq<string>) returns (r: Option<seq<seq<string>>>)
    ensures r == Glued(lines)
  {
    var groups: seq<seq<string>> := [];
    var buffer: Option<seq<string>> := None;
    for k := 0 to |lines|
      invariant GluePrefix(lines, k, true) == Some(Glue(groups, buffer))
    {
      var line := lines[k];
      if buffer.Some? && |buffer.value[|buffer.value| - 1]| < ShortLen && line == "" {
        GlueFails(lines, k + 1, |lines|, true);
        return None;
      }
      if buffer.Some? && |buffer.value[|buffer.value| - 1]| < ShortLen && IsLowerChar(line[0]) {
        buffer := Some(buffer.value + [line]);
      } else {
        if buffer.Some? {
          groups := groups + [buffer.value];
          buffer := None;
        }
        if |line| < ShortLen {
          buffer := Some([line]);
        } else {
          groups := groups + [[line]];
        }
      }
    }
    if buffer.Some? {
      groups := groups + [buffer.value];
    }
    return Some(groups);
  }
}
