/**
 * The PMFS parser of `myndfskr.py` and its identifier builder: the
 * recognizer lists and transition table of `get_parser` (the engine that
 * runs them, `FSMParser`, is not part of this model), the heading test
 * `analyze_rubrik`, `sizematch`, `make_listitem`, and `construct_id`, which
 * gives each node of the parse tree a URI that no other node has.
 */
module MyndPmfs {
  import opened Wrappers
  import opened PyStr

  // ------------------------------------------------------------ grammar

  /** The parser's states. */
  datatype State = Body | Kapitel | Paragraf | Appendix | Bulletlist

  /** The recognizers `is_pagebreak`, ..., `is_stycke`. */
  datatype Recognizer =
    | PagebreakChunk | AppendixChunk | NonessentialChunk | MarginaliaChunk
    | KapitelStart | ParagrafStart | RubrikChunk | BulletChunk | StyckeChunk

  /** The constructors `make_body`, ..., `skip_pagebreak`. */
  datatype Constructor =
    | MakeBody | MakeKapitel | MakeParagraf | MakeRubrik | MakeStycke | MakeMarginalia
    | MakeBulletlist | MakeAppendix | SkipNonessential | SkipPagebreak

  /** The state a constructor's `@newstate` decorator names, if it has one. */
  function NewState(c: Constructor): Option<State>
  {
    match c
    case MakeBody => Some(Body)
    case MakeKapitel => Some(Kapitel)
    case MakeParagraf => Some(Paragraf)
    case MakeBulletlist => Some(Bulletlist)
    case MakeAppendix => Some(Appendix)
    case _ => None
  }

  /** A transition's value: `(make_x, "x")`, `(make_x, None)`, or `(False, None)`, which pops the state. */
  datatype Target = Call(make: Constructor, next: Option<State>) | Pop

  const InitialState := Body
  const InitialConstructor := MakeBody

  /** The recognizers of the default configuration, in the order they are tried. */
  const DefaultRecognizers: seq<Recognizer> := [
    PagebreakChunk, AppendixChunk, NonessentialChunk, MarginaliaChunk,
    KapitelStart, ParagrafStart, RubrikChunk, BulletChunk, StyckeChunk]

  /** `list.remove`: the list without the first occurrence of `x`. */
  function RemoveFirst<T(==)>(xs: seq<T>, x: T): (r: seq<T>)
    ensures x in xs ==> |r| == |xs| - 1
    ensures x !in xs ==> r == xs
  {
    if xs == [] then []
    else if xs[0] == x then xs[1..]
    else [xs[0]] + RemoveFirst(xs[1..], x)
  }

  /** The recognizers for a `parseconfig`. */
  function Recognizers(parseconfig: string): seq<Recognizer>
  {
    if parseconfig == "noappendix" then RemoveFirst(DefaultRecognizers, AppendixChunk)
    else if parseconfig == "simple" then [PagebreakChunk, StyckeChunk]
    else DefaultRecognizers
  }

  /** `commonstates`. */
  predicate Common(s: State)
  {
    s in {Body, Kapitel, Paragraf, Appendix}
  }

  /** The entries keyed by `commonstates`. */
  function CommonEntry(r: Recognizer): Option<Target>
  {
    match r
    case NonessentialChunk => Some(Call(SkipNonessential, None))
    case MarginaliaChunk => Some(Call(MakeMarginalia, None))
    case PagebreakChunk => Some(Call(SkipPagebreak, None))
    case StyckeChunk => Some(Call(MakeStycke, None))
    case RubrikChunk => Some(Call(MakeRubrik, None))
    case ParagrafStart => Some(Call(MakeParagraf, Some(Paragraf)))
    case _ => None
  }

  /** The entries keyed by a single state. */
  function OwnEntry(s: State, r: Recognizer): Option<Target>
  {
    match (s, r)
    case (Body, KapitelStart) => Some(Call(MakeKapitel, Some(Kapitel)))
    case (Kapitel, KapitelStart) => Some(Pop)
    case (Kapitel, ParagrafStart) => Some(Call(MakeParagraf, Some(Paragraf)))
    case (Paragraf, ParagrafStart) => Some(Pop)
    case (Paragraf, KapitelStart) => Some(Pop)
    case (Paragraf, RubrikChunk) => Some(Pop)
    case _ => None
  }

  /**
   * The transition table, with a state's own entry taking the place of the
   * `commonstates` entry for the same recognizer.
   */
  function Transition(s: State, r: Recognizer): Option<Target>
  {
    if OwnEntry(s, r).Some? then OwnEntry(s, r)
    else if Common(s) then CommonEntry(r)
    else None
  }

  /** Every entry that calls a constructor names the state the constructor's decorator names. */
  lemma TargetsAgreeWithConstructors(s: State, r: Recognizer)
    requires Transition(s, r).Some? && Transition(s, r).value.Call?
    ensures Transition(s, r).value.next == NewState(Transition(s, r).value.make)
  {
  }

  /**
   * No entry mentions `is_bulletlist` or `is_appendix`, and there is no row
   * for the bulletlist state, so `make_bulletlist` and `make_appendix` are
   * never selected.
   */
  lemma BulletlistAndAppendixNeverSelected(s: State, r: Recognizer)
    ensures Transition(s, BulletChunk).None? && Transition(s, AppendixChunk).None?
    ensures Transition(Bulletlist, r).None?
    ensures Transition(s, r).Some? && Transition(s, r).value.Call? ==>
      Transition(s, r).value.make != MakeBulletlist && Transition(s, r).value.make != MakeAppendix
  {
  }

  /** A paragraph never nests a paragraph, a chapter or a heading: where the common entry would call a constructor, the paragraph's own entry pops. */
  lemma ParagrafOverrides()
    ensures CommonEntry(ParagrafStart).value.Call? && Transition(Paragraf, ParagrafStart) == Some(Pop)
    ensures CommonEntry(RubrikChunk).value.Call? && Transition(Paragraf, RubrikChunk) == Some(Pop)
    ensures Transition(Paragraf, KapitelStart) == Some(Pop) && Transition(Kapitel, KapitelStart) == Some(Pop)
  {
  }

  /** The entry pushes state `s`. */
  predicate Pushes(t: Target, s: State)
  {
    t.Call? && t.next == Some(s)
  }

  /** Every state the parser can be in: the initial one, or one some entry pushes. */
  predicate Reachable(s: State)
  {
    s == InitialState || exists from: State, r: Recognizer :: Transition(from, r).Some? && Pushes(Transition(from, r).value, s)
  }

  /** Only the body, a chapter and a paragraph are ever open; the appendix and bulletlist rows are dead. */
  lemma ReachableStates(s: State)
    ensures Reachable(s) <==> s == Body || s == Kapitel || s == Paragraf
  {
    if s == Kapitel {
      assert Pushes(Transition(Body, KapitelStart).value, Kapitel);
    } else if s == Paragraf {
      assert Pushes(Transition(Body, ParagrafStart).value, Paragraf);
    } else if s != Body {
      forall from: State, r: Recognizer | Transition(from, r).Some?
        ensures !Pushes(Transition(from, r).value, s)
      {
      }
    }
  }

  /**
   * Every open state takes the always-true `is_stycke`, and every
   * configuration tries it last, so no chunk is left without a transition.
   */
  lemma StyckeEverywhere(s: State, parseconfig: string)
    requires Reachable(s)
    ensures Transition(s, StyckeChunk) == Some(Call(MakeStycke, None))
    ensures Recognizers(parseconfig) != [] && Recognizers(parseconfig)[|Recognizers(parseconfig)| - 1] == StyckeChunk
  {
    ReachableStates(s);
    if parseconfig == "noappendix" {
      assert RemoveFirst(DefaultRecognizers, AppendixChunk) == [PagebreakChunk] + DefaultRecognizers[2..];
    }
  }

  /** "noappendix" drops `is_appendix` and keeps the order of the rest. */
  lemma NoAppendixConfig()
    ensures Recognizers("noappendix") == [PagebreakChunk] + DefaultRecognizers[2..]
    ensures AppendixChunk !in Recognizers("noappendix")
  {
    assert RemoveFirst(DefaultRecognizers, AppendixChunk) == [PagebreakChunk] + DefaultRecognizers[2..];
  }

  // ------------------------------------------------------------ headings

  datatype Font = Font(size: int, family: string)

  /** Where a text box sits on the page. */
  datatype Geometry = Geometry(top: int, left: int, right: int, bottom: int, width: int, height: int)

  /** A text box: how many text elements it holds, its text, position and font. */
  datatype Textbox = Textbox(elements: nat, text: string, geometry: Geometry, font: Font)

  /** A text box is true when it holds an element. */
  predicate Truthy(chunk: Option<Textbox>)
  {
    chunk.Some? && chunk.value.elements > 0
  }

  /** What `analyze_rubrik` gives: `False`, `(level, strchunk)`, or an `IndexError`. */
  datatype Heading = NotHeading | Heading(level: nat, text: string) | HeadingIndexError

  /** Endings with a final period that a heading may still have. */
  const Abbreviations: seq<string> := ["m.m.", "m. m.", "m.fl.", "m. fl."]

  /** Endings a heading never has. */
  const BadEndings: seq<string> := [",", " och", " eller", ":", "-", ";"]

  predicate EndsWithAny(s: string, ends: seq<string>)
  {
    exists i :: 0 <= i < |ends| && EndsWith(s, ends[i])
  }

  /** A period that is not the end of an abbreviation, or one of the bad endings. */
  predicate BadEnding(s: string)
  {
    (EndsWith(s, ".") && !EndsWithAny(s, Abbreviations)) || EndsWithAny(s, BadEndings)
  }

  /** The checks of `analyze_rubrik`, in order, once `chunk` and `strchunk` are settled. */
  function Classify(chunk: Option<Textbox>, strchunk: string, defaultSize: int): Heading
  {
    if Truthy(chunk) && chunk.value.elements > 1 then NotHeading
    else if |strchunk| > 135 then NotHeading
    else if strchunk == "" then HeadingIndexError
    else if !IsUpperChar(strchunk[0]) then NotHeading
    else if BadEnding(strchunk) then NotHeading
    else if Truthy(chunk) && chunk.value.font.size < defaultSize then NotHeading
    else if Truthy(chunk) && Contains(chunk.value.font.family, "Italic") then Heading(2, strchunk)
    else if EndsWith(strchunk, "författningssamling") then Heading(0, strchunk)
    else Heading(1, strchunk)
  }

  /**
   * `analyze_rubrik(parser, chunk, strchunk)`: without a true chunk and
   * without text it looks at the chunk at the head of the reader, `head`.
   */
  function AnalyzeRubrik(chunk: Option<Textbox>, strchunk: string, head: Textbox, defaultSize: int): Heading
  {
    if Truthy(chunk) || strchunk != "" then Classify(chunk, strchunk, defaultSize)
    else Classify(Some(head), head.text, defaultSize)
  }

  /**
   * A heading is the text itself, one line of at most 135 characters that
   * starts with an upper-case letter and has no bad ending; level 2 exactly
   * for an italic chunk, level 0 only for a collection's name.
   */
  lemma HeadingShape(chunk: Option<Textbox>, s: string, d: int)
    requires Classify(chunk, s, d).Heading?
    ensures Classify(chunk, s, d).text == s && 1 <= |s| <= 135 && IsUpperChar(s[0]) && !BadEnding(s)
    ensures Classify(chunk, s, d).level <= 2
    ensures Classify(chunk, s, d).level == 2 <==> Truthy(chunk) && Contains(chunk.value.font.family, "Italic")
    ensures Classify(chunk, s, d).level == 0 ==> EndsWith(s, "författningssamling")
    ensures Truthy(chunk) ==> chunk.value.elements == 1 && chunk.value.font.size >= d
  {
  }

  /** Without a chunk (the chapter-heading case) the text alone decides, and the level is never 2. */
  lemma HeadingFromText(s: string, d: int)
    ensures Classify(None, s, d).Heading? <==> 1 <= |s| <= 135 && IsUpperChar(s[0]) && !BadEnding(s)
    ensures Classify(None, s, d).Heading? ==> Classify(None, s, d).level != 2
    ensures Classify(None, s, d).HeadingIndexError? <==> s == ""
  {
  }

  /** A text ending with one of the accepted abbreviations has no bad ending. */
  lemma AbbreviationAccepted(s: string, i: nat)
    requires i < |Abbreviations| && EndsWith(s, Abbreviations[i])
    ensures !BadEnding(s)
  {
    EndingLastChar(s, Abbreviations[i]);
    forall j | 0 <= j < |BadEndings| ensures !EndsWith(s, BadEndings[j]) {
      EndingLastChar(s, BadEndings[j]);
    }
  }

  /** A non-empty ending fixes the last character. */
  lemma EndingLastChar(s: string, e: string)
    requires e != []
    ensures EndsWith(s, e) ==> s[|s| - 1] == e[|e| - 1]
  {
    assert |e| <= |s| ==> s[|s| - |e|..][|e| - 1] == s[|s| - 1];
  }

  // ------------------------------------------------------------ sizes

  /** `sizematch`: with a scanned source the sizes match within the tolerances, otherwise exactly. */
  function SizeMatch(scanned: bool, want: int, got: int, tolerateLess: int, tolerateMore: int): bool
  {
    if scanned then want + tolerateMore <= got + tolerateLess else want == got
  }

  /**
   * With the default tolerances a scanned size matches whenever it is at
   * least the wanted one; the example of the source's comment holds; and
   * more tolerance of smaller sizes, or less of larger ones, keeps a match.
   */
  lemma SizeMatchTolerance(want: int, got: int, less: int, more: int, less': int, more': int)
    ensures SizeMatch(true, want, got, 1, 1) <==> want <= got
    ensures SizeMatch(true, 10, 9, 1, 0)
    ensures SizeMatch(true, want, got, less, more) && less <= less' && more' <= more ==>
      SizeMatch(true, want, got, less', more')
    ensures SizeMatch(false, want, got, less, more) && more <= less ==> SizeMatch(true, want, got, less, more)
  {
  }

  // ------------------------------------------------------------ list items

  /** A list item: its text and the chunk's position and font. */
  datatype ListItem = ListItem(texts: seq<string>, geometry: Geometry, font: Font)

  /** The item's text: after the first space when there is one, else without the first character. */
  function ListItemText(s: string): string
  {
    if Contains(s, " ") then SplitOnce(s, " ")[1]
    else if s == "" then ""
    else s[1..]
  }

  /** `make_listitem` on the chunk it reads. */
  function MakeListitem(chunk: Textbox): ListItem
  {
    ListItem([ListItemText(chunk.text)], chunk.geometry, chunk.font)
  }

  /**
   * The item's text is what follows the bullet: a space-free word and a
   * space, or a single character; it is a strict suffix of a non-empty text.
   */
  lemma ListItemDropsBullet(chunk: Textbox)
    ensures var r := MakeListitem(chunk);
      r.geometry == chunk.geometry && r.font == chunk.font && |r.texts| == 1 &&
      (Contains(chunk.text, " ") ==>
        exists bullet :: Free(bullet, ' ') && chunk.text == bullet + " " + r.texts[0]) &&
      (!Contains(chunk.text, " ") && chunk.text != "" ==> chunk.text == [chunk.text[0]] + r.texts[0]) &&
      (chunk.text != "" ==> EndsWith(chunk.text, r.texts[0]) && |r.texts[0]| < |chunk.text|)
  {
    var s := chunk.text;
    var r := ListItemText(s);
    if Contains(s, " ") {
      var parts := SplitOnce(s, " ");
      var bullet := parts[0];
      assert Free(bullet, ' ') by {
        forall i | 0 <= i < |bullet| ensures bullet[i] != ' ' {
          if bullet[i] == ' ' {
            assert OccursAt(bullet, " ", i) by {
              assert bullet[i..i + 1] == " ";
            }
            ContainsAt(bullet, " ", i);
          }
        }
      }
      assert s[|s| - |r|..] == r;
    } else if s != "" {
      assert s == [s[0]] + s[1..];
    }
  }

  // ------------------------------------------------------------ identifiers

  /** The node classes `construct_id` tells apart; `OtherKind` names any other class. */
  datatype Kind =
    | BodyKind | KapitelKind | ParagrafKind | StyckeKind | RubrikKind | ListelementKind | BilagaKind
    | OtherKind(name: string)

  /**
   * What `==` between two nodes compares: the class, the `ordinal`
   * attribute, whether the node is time-bound (`Tidsbestamd`) and in
   * effect, and the node's contents, kept here as one opaque value.
   */
  datatype Shape = Shape(kind: Kind, ordinal: string, timed: bool, inEffect: bool, content: string)

  /** A node of the parse tree, whose `uri` and `id` `construct_id` sets. */
  class Node {
    const shape: Shape
    const children: seq<Node>
    /** Strictly above every child's. */
    ghost const height: nat
    /** The nodes below this one. */
    ghost const Below: set<Node>
    var uri: Option<string>
    var id: Option<string>

    /** The children form a tree of the nodes below. */
    ghost predicate Valid()
      decreases height
    {
      forall c :: c in children ==> c.height < height && c in Below && c.Below <= Below && c.Valid()
    }

    constructor (shape: Shape, children: seq<Node>)
      requires forall c :: c in children ==> c.Valid()
      ensures this.shape == shape && this.children == children && Valid()
      ensures uri == None && id == None
    {
      this.shape := shape;
      this.children := children;
      height := 1 + MaxHeight(children);
      Below := Descendants(children);
      uri := None;
      id := None;
    }
  }

  ghost function MaxHeight(cs: seq<Node>): (h: nat)
    ensures forall c :: c in cs ==> c.height <= h
  {
    if cs == [] then 0
    else
      var rest := MaxHeight(cs[1..]);
      assert forall c :: c in cs ==> c == cs[0] || c in cs[1..];
      if cs[0].height > rest then cs[0].height else rest
  }

  ghost function Descendants(cs: seq<Node>): (d: set<Node>)
    ensures forall c :: c in cs ==> c in d && c.Below <= d
  {
    if cs == [] then {}
    else
      assert forall c :: c in cs ==> c == cs[0] || c in cs[1..];
      {cs[0]} + cs[0].Below + Descendants(cs[1..])
  }

  /** The `uris` set, shared by every copy of the visitor state. */
  class UriSet {
    var uris: set<string>

    constructor ()
      ensures uris == {}
    {
      uris := {};
    }
  }

  /** The rest of the visitor state: its attributes and `parent`, absent at the root. */
  datatype IdState = IdState(attrs: map<string, string>, parent: Option<Node>)

  /** What `construct_id` does: hand a state to the children, return `None` (skip them), or raise `KeyError`. */
  datatype Outcome = Children(state: IdState) | Skip | Raises

  const Punkt := "rinfoex:punktnummer"

  /** `ordinalpredicates`. */
  function OrdinalPredicate(k: Kind): Option<string>
  {
    match k
    case KapitelKind => Some("rpubl:kapitelnummer")
    case ParagrafKind => Some("rpubl:paragrafnummer")
    case StyckeKind => Some("rinfoex:styckenummer")
    case RubrikKind => Some("rinfoex:rubriknummer")
    case ListelementKind => Some(Punkt)
    case BilagaKind => Some("rinfoex:bilaganummer")
    case _ => None
  }

  /** The shapes of a list of nodes. */
  function Shapes(cs: seq<Node>): (r: seq<Shape>)
    ensures |r| == |cs| && forall i :: 0 <= i < |cs| ==> r[i] == cs[i].shape
  {
    seq(|cs|, i requires 0 <= i < |cs| => cs[i].shape)
  }

  /** How many of `xs` are of kind `k`. */
  function CountKind(xs: seq<Shape>, k: Kind): (n: nat)
    ensures n <= |xs|
  {
    if xs == [] then 0
    else CountKind(xs[..|xs| - 1], k) + (if xs[|xs| - 1].kind == k then 1 else 0)
  }

  /** Up to and including the first sibling equal to `s`; all of them when there is none. */
  function Stop(s: Shape, xs: seq<Shape>): (n: nat)
    ensures n <= |xs|
    ensures forall j :: 0 <= j < n && j + 1 < n ==> xs[j] != s
    ensures (0 < n && xs[n - 1] == s) || (n == |xs| && s !in xs)
  {
    if xs == [] then 0
    else if xs[0] == s then 1
    else
      var n := 1 + Stop(s, xs[1..]);
      assert forall j :: 1 <= j < n ==> xs[j] == xs[1..][j - 1];
      n
  }

  /** The ordinal counted for a node: how many same-kind siblings up to the first one equal to it. */
  function Position(s: Shape, xs: seq<Shape>): nat
  {
    CountKind(xs[..Stop(s, xs)], s.kind)
  }

  /** The loop over `state['parent']` that finds out which number the node is. */
  method SiblingOrdinal(node: Node, parent: Node) returns (ordinal: nat)
    ensures ordinal == Position(node.shape, Shapes(parent.children))
  {
    var sibs := parent.children;
    ghost var xs := Shapes(sibs);
    ordinal := 0;
    for i := 0 to |sibs|
      invariant forall j :: 0 <= j < i ==> xs[j] != node.shape
      invariant ordinal == CountKind(xs[..i], node.shape.kind)
    {
      var other := sibs[i];
      assert xs[..i + 1][..i] == xs[..i];
      if other.shape.kind == node.shape.kind {
        ordinal := ordinal + 1;
      }
      if other.shape == node.shape {
        StopAtFirst(node.shape, xs, i);
        return;
      }
    }
    assert xs[..|sibs|] == xs;
    StopAtFirst(node.shape, xs, |sibs|);
  }

  /** Where `Stop` ends, given the first equal sibling, or none. */
  lemma {:induction false} StopAtFirst(s: Shape, xs: seq<Shape>, i: nat)
    requires i <= |xs| && forall j :: 0 <= j < i ==> xs[j] != s
    requires i < |xs| ==> xs[i] == s
    ensures Stop(s, xs) == if i < |xs| then i + 1 else |xs|
  {
    if xs != [] && xs[0] != s {
      assert forall j :: 0 <= j < i - 1 ==> xs[1..][j] == xs[j + 1];
      StopAtFirst(s, xs[1..], i - 1);
    }
  }

  /** More of the list counts at least as many. */
  lemma {:induction false} CountKindMonotone(xs: seq<Shape>, k: Kind, i: nat, j: nat)
    requires i <= j <= |xs|
    ensures CountKind(xs[..i], k) <= CountKind(xs[..j], k)
    decreases j - i
  {
    if i < j {
      CountKindMonotone(xs, k, i, j - 1);
      assert xs[..j][..j - 1] == xs[..j - 1];
    }
  }

  /**
   * A node that is its first equal among its siblings is numbered by its
   * 1-based position among the siblings of its kind, and a later such
   * sibling of the same kind gets a larger number.
   */
  lemma PositionAmongSiblings(xs: seq<Shape>, i: nat, j: nat)
    requires i < j < |xs| && xs[i].kind == xs[j].kind
    requires forall k :: 0 <= k < j && xs[k] == xs[j] ==> false
    requires forall k :: 0 <= k < i && xs[k] == xs[i] ==> false
    ensures Position(xs[i], xs) == CountKind(xs[..i + 1], xs[i].kind) >= 1
    ensures Position(xs[j], xs) == CountKind(xs[..j + 1], xs[j].kind)
    ensures Position(xs[i], xs) < Position(xs[j], xs)
  {
    StopAtFirst(xs[i], xs, i);
    StopAtFirst(xs[j], xs, j);
    var k := xs[i].kind;
    assert xs[..i + 1][..i] == xs[..i];
    assert xs[..j + 1][..j] == xs[..j];
    CountKindMonotone(xs, k, i + 1, j);
  }

  // The key for nested list items: "rinfoex:punktnummer", then "rinfoex:subpunktnummer", ...

  /** `n` copies of "sub". */
  function Subs(n: nat): (r: string)
    ensures |r| == 3 * n && Free(r, ':')
  {
    if n == 0 then "" else "sub" + Subs(n - 1)
  }

  const Ns := "rinfoex"
  const Numbered := "punktnummer"

  /** The list-item key at nesting depth `n`. */
  function PunktKey(n: nat): (k: string)
    ensures |k| == |Ns| + 1 + 3 * n + |Numbered|
  {
    Ns + ":" + (Subs(n) + Numbered)
  }

  lemma PunktKeyZero()
    ensures PunktKey(0) == Punkt
  {
  }

  /** One step of the `while` loop turns the key of depth `n` into the key of depth `n + 1`. */
  lemma PunktStep(n: nat)
    ensures |Split(PunktKey(n), ":")| == 2 && "rinfoex:sub" + Split(PunktKey(n), ":")[1] == PunktKey(n + 1)
  {
    PunktSplit(n);
    PunktNext(n);
  }

  lemma PunktSplit(n: nat)
    ensures Split(PunktKey(n), ":") == [Ns, Subs(n) + Numbered]
  {
    assert Free(Subs(n) + Numbered, ':') && Free(Ns, ':');
    SplitNamespace(Ns, Subs(n) + Numbered);
  }

  lemma PunktNext(n: nat)
    ensures "rinfoex:sub" + (Subs(n) + Numbered) == PunktKey(n + 1)
  {
    assert Subs(n + 1) == "sub" + Subs(n);
    assert "rinfoex:sub" == Ns + ":" + "sub";
  }

  /** A namespace and a local name, neither with a colon, split at the colon into the two. */
  lemma SplitNamespace(ns: string, tail: string)
    requires Free(ns, ':') && Free(tail, ':')
    ensures Split(ns + ":" + tail, ":") == [ns, tail]
  {
    assert ns + ":" + tail == ns + [':'] + tail;
    SplitAtChar(ns, ':', tail);
    SplitNoChar(tail, ':');
  }

  lemma SubsetCard<T>(a: set<T>, b: set<T>)
    requires a <= b
    ensures |a| <= |b|
    decreases |a|
  {
    if a != {} {
      var x :| x in a;
      SubsetCard(a - {x}, b - {x});
    }
  }

  lemma {:induction false} PunktKeysCard(n: nat)
    ensures |set j | 0 <= j < n :: PunktKey(j)| == n
  {
    if n > 0 {
      PunktKeysCard(n - 1);
      var below := set j | 0 <= j < n - 1 :: PunktKey(j);
      assert (set j | 0 <= j < n :: PunktKey(j)) == below + {PunktKey(n - 1)};
      assert PunktKey(n - 1) !in below;
    }
  }

  /** The keys of depth below `n`, all present, are at most as many as the keys. */
  lemma KeysBound(attrs: map<string, string>, n: nat)
    requires forall j :: 0 <= j < n ==> PunktKey(j) in attrs
    ensures n <= |attrs.Keys|
  {
    PunktKeysCard(n);
    SubsetCard(set j | 0 <= j < n :: PunktKey(j), attrs.Keys);
  }

  /** The depth of the first list-item key from depth `n` on that is not taken. */
  function FreeDepth(attrs: map<string, string>, n: nat): (d: nat)
    requires forall j :: 0 <= j < n ==> PunktKey(j) in attrs
    ensures n <= d && PunktKey(d) !in attrs
    ensures forall j :: 0 <= j < d ==> PunktKey(j) in attrs
    decreases |attrs.Keys| - n
  {
    KeysBound(attrs, n);
    if PunktKey(n) !in attrs then n
    else
      KeysBound(attrs, n + 1);
      FreeDepth(attrs, n + 1)
  }

  /** The `while ordinalpredicate in state` loop: the first free list-item key. */
  method ListKey(attrs: map<string, string>) returns (key: string)
    ensures key == PunktKey(FreeDepth(attrs, 0))
  {
    PunktKeyZero();
    key := Punkt;
    ghost var n := 0;
    while key in attrs
      invariant forall j :: 0 <= j < n ==> PunktKey(j) in attrs
      invariant key == PunktKey(n) && FreeDepth(attrs, n) == FreeDepth(attrs, 0)
      decreases |attrs.Keys| - n
    {
      KeysBound(attrs, n + 1);
      PunktStep(n);
      key := "rinfoex:sub" + Split(key, ":")[1];
      n := n + 1;
    }
  }

  /** The nested key is one no earlier list item of the state holds, and all shallower ones are taken. */
  lemma ListKeyFree(attrs: map<string, string>)
    ensures PunktKey(FreeDepth(attrs, 0)) !in attrs
    ensures forall j :: 0 <= j < FreeDepth(attrs, 0) ==> PunktKey(j) in attrs
    ensures Punkt !in attrs ==> PunktKey(FreeDepth(attrs, 0)) == Punkt
  {
    PunktKeyZero();
  }

  /** The root node's attributes are added over the state's. */
  function Merged(kind: Kind, attrs: map<string, string>, rootAttrs: map<string, string>): map<string, string>
  {
    if kind == BodyKind then attrs + rootAttrs else attrs
  }

  /** The ordinal: the node's own, else its position among its siblings. */
  function Ordinal(node: Node, parent: Node): string
  {
    if node.shape.ordinal != "" then node.shape.ordinal
    else NatToString(Position(node.shape, Shapes(parent.children)))
  }

  /** The key the ordinal goes under. */
  function OrdinalKey(pred: string, attrs: map<string, string>): string
  {
    if pred == Punkt then PunktKey(FreeDepth(attrs, 0)) else pred
  }

  /** The attributes the URI is minted from. */
  function Described(node: Node, attrs: map<string, string>, parent: Node, rootAttrs: map<string, string>): map<string, string>
    requires OrdinalPredicate(node.shape.kind).Some?
  {
    var a := Merged(node.shape.kind, attrs, rootAttrs);
    a[OrdinalKey(OrdinalPredicate(node.shape.kind).value, a) := Ordinal(node, parent)]
  }

  /** A minted URI that is true: one was minted without an exception, and it is not empty. */
  predicate Usable(u: Option<string>)
  {
    u.Some? && u.value != ""
  }

  /** The node may take the URI: nobody has it, and a time-bound node is in effect. */
  predicate Assignable(u: string, used: set<string>, s: Shape)
  {
    u !in used && (!s.timed || s.inEffect)
  }

  /** The fragment after the first "#". */
  function Fragment(u: string): (f: Option<string>)
    ensures f.Some? <==> Contains(u, "#")
    ensures f.Some? ==> exists base :: !Contains(base, "#") && u == base + "#" + f.value
  {
    if Contains(u, "#") then
      var parts := SplitOnce(u, "#");
      assert !Contains(parts[0], "#") && u == parts[0] + "#" + parts[1];
      Some(parts[1])
    else None
  }

  /**
   * The end of `construct_id`, once the attributes `a` are settled and `u`
   * is minted: a true URI that nobody has goes to the node, which also gets
   * the fragment as its id; a taken one, or one of a time-bound node not in
   * effect, skips the node's children; no URI leaves everything as it was.
   */
  twostate predicate Assigned(node: Node, reg: UriSet, a: map<string, string>, new u: Option<string>, new r: Outcome)
    reads node, reg
  {
    (!Usable(u) ==> r == Children(IdState(a, Some(node))) && unchanged(node, reg)) &&
    (Usable(u) && !Assignable(u.value, old(reg.uris), node.shape) ==> r == Skip && unchanged(node, reg)) &&
    (Usable(u) && Assignable(u.value, old(reg.uris), node.shape) ==>
      r == Children(IdState(a, Some(node))) && reg.uris == old(reg.uris) + {u.value} && node.uri == u &&
      node.id == (if Fragment(u.value).Some? then Fragment(u.value) else old(node.id)))
  }

  /** The `if uri:` part of `construct_id`. */
  method AssignUri(node: Node, reg: UriSet, a: map<string, string>, u: Option<string>) returns (r: Outcome)
    modifies node, reg
    ensures Assigned(node, reg, a, u, r)
  {
    if u.Some? && u.value != "" {
      if u.value !in reg.uris && (!node.shape.timed || node.shape.inEffect) {
        node.uri := u;
        reg.uris := reg.uris + {u.value};
      } else {
        return Skip;
      }
      if Contains(u.value, "#") {
        node.id := Some(SplitOnce(u.value, "#")[1]);
      }
    }
    return Children(IdState(a, Some(node)));
  }

  /**
   * `construct_id(node, state)`. `rootAttrs` stands for
   * `metadata_from_basefile(state['basefile'])` and `mint` for
   * `coin_uri(attributes_to_resource(...))`, `None` when it raises or
   * gives nothing.
   */
  method ConstructId(node: Node, state: IdState, reg: UriSet, rootAttrs: map<string, string>,
                     mint: map<string, string> -> Option<string>)
    returns (r: Outcome)
    modifies node, reg
    ensures OrdinalPredicate(node.shape.kind).None? ==>
      r == Children(IdState(Merged(node.shape.kind, state.attrs, rootAttrs), Some(node))) && unchanged(node, reg)
    ensures OrdinalPredicate(node.shape.kind).Some? && state.parent.None? ==> r == Raises && unchanged(node, reg)
    ensures OrdinalPredicate(node.shape.kind).Some? && state.parent.Some? ==>
      var a := Described(node, state.attrs, state.parent.value, rootAttrs);
      Assigned(node, reg, a, mint(a), r)
  {
    var attrs := state.attrs;
    if node.shape.kind == BodyKind {
      attrs := attrs + rootAttrs;
    }
    var pred := OrdinalPredicate(node.shape.kind);
    if pred.None? {
      return Children(IdState(attrs, Some(node)));
    }
    if state.parent.None? {
      return Raises;
    }
    var ordinal: string;
    if node.shape.ordinal != "" {
      ordinal := node.shape.ordinal;
    } else {
      var count := SiblingOrdinal(node, state.parent.value);
      ordinal := NatToString(count);
    }
    assert ordinal == Ordinal(node, state.parent.value);
    var key := pred.value;
    if key == Punkt {
      key := ListKey(attrs);
    }
    assert key == OrdinalKey(pred.value, attrs);
    attrs := attrs[key := ordinal];
    assert attrs == Described(node, state.attrs, state.parent.value, rootAttrs);
    r := AssignUri(node, reg, attrs, mint(attrs));
  }

  /** The elements of a list, as a set. */
  function Elements(xs: seq<string>): set<string>
  {
    set u | u in xs
  }

  /** No two entries are equal. */
  predicate Distinct(xs: seq<string>)
  {
    forall i, j :: 0 <= i < j < |xs| ==> xs[i] != xs[j]
  }

  /** Two lists without duplicates and with no common entry append to one without duplicates. */
  lemma DistinctAppend(a: seq<string>, b: seq<string>)
    requires Distinct(a) && Distinct(b) && forall u :: u in b ==> u !in a
    ensures Distinct(a + b)
  {
    forall i, j | 0 <= i < j < |a + b| ensures (a + b)[i] != (a + b)[j] {
      if j >= |a| && i < |a| {
        assert (a + b)[j] in b;
      }
    }
  }

  /** Every node in `given` holds one of `minted`, and no two of them hold the same URI. */
  ghost predicate HeldApart(given: set<Node>, minted: seq<string>)
    reads given
  {
    (forall n :: n in given ==> n.uri.Some? && n.uri.value in minted) &&
    (forall n, m :: n in given && m in given && n != m ==> n.uri != m.uri)
  }

  /** The URIs of some nodes. */
  ghost function UrisOf(ns: set<Node>): map<Node, Option<string>>
    reads ns
  {
    map n | n in ns :: n.uri
  }

  /**
   * The nodes a child's traversal gave URIs join those given before (whose
   * URIs were `before`): the earlier ones it did not touch keep theirs, and
   * its URIs are new.
   */
  lemma KeepApart(given: set<Node>, minted: seq<string>, g: set<Node>, more: seq<string>, before: map<Node, Option<string>>)
    requires given <= before.Keys
    requires forall n :: n in given ==> before[n].Some? && before[n].value in minted
    requires forall n, m :: n in given && m in given && n != m ==> before[n] != before[m]
    requires HeldApart(g, more)
    requires forall n :: n in given && n !in g ==> n.uri == before[n]
    requires forall u :: u in more ==> u !in minted
    ensures HeldApart(given + g, minted + more)
  {
    forall n, m | n in given + g && m in given + g && n != m ensures n.uri != m.uri {
      if n !in g && m !in g {
        assert before[n] != before[m];
      } else if n !in g {
        assert before[n].value in minted && m.uri.value in more;
      } else if m !in g {
        assert before[m].value in minted && n.uri.value in more;
      }
    }
  }

  /** `construct_id` on one node, with the URI it handed out, if any. */
  method Enter(node: Node, state: IdState, reg: UriSet, rootAttrs: map<string, string>,
               mint: map<string, string> -> Option<string>)
    returns (r: Outcome, minted: seq<string>)
    modifies node, reg
    ensures reg.uris == old(reg.uris) + Elements(minted) && |minted| <= 1
    ensures forall u :: u in minted ==> u !in old(reg.uris)
    ensures minted == [] ==> node.uri == old(node.uri) && node.id == old(node.id)
    ensures minted != [] ==> node.uri == Some(minted[0])
    ensures r.Raises? || r.Skip? ==> minted == []
  {
    var before := reg.uris;
    r := ConstructId(node, state, reg, rootAttrs, mint);
    minted := [];
    if reg.uris != before {
      minted := [node.uri.value];
    }
    assert Elements(minted) == reg.uris - before;
  }

  /**
   * The traversal: `construct_id` on the node, then on each child with the
   * state it returned, skipping the children when it returns `None` and
   * stopping at an exception. It gives the URIs handed out, in order, and
   * whether it stopped at an exception; `given` names the nodes that took a
   * URI, each holding one of those handed out and no two the same, while
   * every other node keeps its `uri` and `id`.
   */
  method Visit(node: Node, state: IdState, reg: UriSet, rootAttrs: map<string, string>,
               mint: map<string, string> -> Option<string>)
    returns (minted: seq<string>, raised: bool, ghost given: set<Node>)
    requires node.Valid()
    modifies {node} + node.Below, reg
    ensures reg.uris == old(reg.uris) + Elements(minted)
    ensures forall u :: u in minted ==> u !in old(reg.uris)
    ensures Distinct(minted)
    ensures given <= {node} + node.Below && HeldApart(given, minted)
    ensures forall n :: n in {node} + node.Below && n !in given ==> n.uri == old(n.uri) && n.id == old(n.id)
    decreases node.height, 1
  {
    var r;
    r, minted := Enter(node, state, reg, rootAttrs, mint);
    raised := false;
    given := if minted == [] then {} else {node};
    if r.Raises? {
      raised := true;
      return;
    }
    if r.Skip? {
      return;
    }
    ghost var snap := UrisOf(given);
    var more;
    ghost var g;
    more, raised, g := VisitChildren(node, r.state, reg, rootAttrs, mint);
    DistinctAppend(minted, more);
    assert Elements(minted + more) == Elements(minted) + Elements(more);
    KeepApart(given, minted, g, more, snap);
    minted := minted + more;
    given := given + g;
  }

  /** The loop of the traversal over the children of `node`, each given `state`. */
  method VisitChildren(node: Node, state: IdState, reg: UriSet, rootAttrs: map<string, string>,
                       mint: map<string, string> -> Option<string>)
    returns (minted: seq<string>, raised: bool, ghost given: set<Node>)
    requires node.Valid()
    modifies node.Below, reg
    ensures reg.uris == old(reg.uris) + Elements(minted)
    ensures forall u :: u in minted ==> u !in old(reg.uris)
    ensures Distinct(minted)
    ensures given <= node.Below && HeldApart(given, minted)
    ensures forall n :: n in node.Below && n !in given ==> n.uri == old(n.uri) && n.id == old(n.id)
    decreases node.height, 0
  {
    minted := [];
    raised := false;
    given := {};
    var children := node.children;
    for i := 0 to |children|
      invariant reg.uris == old(reg.uris) + Elements(minted)
      invariant forall u :: u in minted ==> u !in old(reg.uris)
      invariant Distinct(minted)
      invariant given <= node.Below && HeldApart(given, minted)
      invariant forall n :: n in node.Below && n !in given ==> n.uri == old(n.uri) && n.id == old(n.id)
    {
      var child := children[i];
      ghost var snap := UrisOf(given);
      var more, failed, g := Visit(child, state, reg, rootAttrs, mint);
      DistinctAppend(minted, more);
      assert Elements(minted + more) == Elements(minted) + Elements(more);
      KeepApart(given, minted, g, more, snap);
      minted := minted + more;
      given := given + g;
      if failed {
        raised := true;
        return;
      }
    }
  }
}
