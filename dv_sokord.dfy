/**
 * `DV.sanitize_sokord` (ferenda/sources/legal/se/dv.py): a Sökord
 * (keyword) string becomes one tuple of keywords per non-blank item; parts
 * that look like descriptions rather than keywords are collected apart and,
 * when there are any, reported through `KeywordContainsDescription` with the
 * keywords found.
 */
module DvSokord {
  import opened Wrappers
  import opened PyStr

  // ---------------------------------------------------------- the term regex

  /** The main keywords whose sub-keyword the regex rewrites to follow " - ". */
  const Terms: seq<string> := ["Allmän handling", "Allmän försäkring", "Arbetsskadeförsäkring",
    "Besvärsrätt", "Byggnadsmål", "Plan- och bygglagen", "Förhandsbesked", "Resning"]

  /**
   * The alternative of the regex's first group that matches at the start of
   * `s`, tried in order from `Terms[k]`. No term is a prefix of another, so
   * at most one can match at a position.
   */
  function TermAt(s: string, k: nat): (r: Option<string>)
    ensures r.Some? ==> r.value in Terms && r.value <= s
    ensures r.Some? ==> r.value != [] && r.value[|r.value| - 1] != ' ' && r.value[|r.value| - 1] != '-'
    decreases |Terms| - k
  {
    if k >= |Terms| then None
    else if Terms[k] <= s then
      assert Terms[k][|Terms[k]| - 1] in {'g', 't', 'l', 'n', 'd'};
      Some(Terms[k])
    else TermAt(s, k + 1)
  }

  /**
   * `[:,?]?\s+\(?(.*?)\)?$` at the start of `u`: the second group. The
   * optional punctuation must be followed by whitespace, all of which the
   * greedy `\s+` takes; an opening parenthesis is skipped and a closing one
   * at the end is left out of the group.
   */
  function AfterTerm(u: string): Option<string>
  {
    var v := if u != [] && (u[0] == ':' || u[0] == ',' || u[0] == '?') then u[1..] else u;
    if v == [] || !IsSpace(v[0]) then None
    else
      var w := LStrip(v);
      var x := if w != [] && w[0] == '(' then w[1..] else w;
      Some(if x != [] && x[|x| - 1] == ')' then x[..|x| - 1] else x)
  }

  /**
   * The whole regex matched at the start of `u`: the length of the term
   * (the first group is `u[..n]`) and the second group.
   */
  function Match(u: string): (r: Option<(nat, string)>)
    ensures r.Some? ==> 0 < r.value.0 <= |u| && u[r.value.0 - 1] != ' ' && u[r.value.0 - 1] != '-'
  {
    match TermAt(u, 0)
    case None => None
    case Some(t) =>
      assert u[|t| - 1] == t[|t| - 1];
      match AfterTerm(u[|t|..])
      case None => None
      case Some(g) => Some((|t|, g))
  }

  /** Where the leftmost match starts, if there is one. */
  function MatchPos(s: string): (r: Option<nat>)
    ensures r.Some? ==> r.value <= |s| && Match(s[r.value..]).Some?
    decreases |s|
  {
    if Match(s).Some? then Some(0)
    else if s == [] then None
    else match MatchPos(s[1..])
      case None => None
      case Some(i) =>
        assert s[1..][i..] == s[i + 1..];
        Some(i + 1)
  }

  /** The position found is the leftmost one, and none is found only when there is none. */
  lemma {:induction false} MatchPosLeftmost(s: string)
    ensures MatchPos(s).Some? ==> forall j :: 0 <= j < MatchPos(s).value ==> Match(s[j..]).None?
    ensures MatchPos(s).None? ==> forall j :: 0 <= j <= |s| ==> Match(s[j..]).None?
    decreases |s|
  {
    if Match(s).None? && s != [] {
      MatchPosLeftmost(s[1..]);
      assert forall j :: 1 <= j <= |s| ==> s[1..][j - 1..] == s[j..];
    }
  }

  /**
   * `re.sub(pattern, r"\1 - \2", s)`: a match runs to the end of `s`, so
   * only the leftmost one is replaced, by its term, " - " and the second group.
   */
  function TermSub(s: string): string
  {
    match MatchPos(s)
    case None => s
    case Some(i) =>
      var (n, g) := Match(s[i..]).value;
      s[..i + n] + (" - " + g)
  }

  /**
   * The rewrite makes the term the first " - "-separated part: in an item
   * without " - ", the text up to and including the leftmost matching term
   * is what `split(" - ")` yields first.
   */
  lemma TermSubFirstPart(s: string)
    requires !Contains(s, " - ") && MatchPos(s).Some?
    ensures var i := MatchPos(s).value;
      Split(TermSub(s), " - ")[0] == s[..i + Match(s[i..]).value.0]
  {
    var k, g := TermSubRewrites(s);
    SplitBeforeMark(s, k, g);
  }

  /** A match is rewritten into the text through the term, " - " and the group. */
  lemma TermSubRewrites(s: string) returns (k: nat, g: string)
    requires MatchPos(s).Some?
    ensures var i := MatchPos(s).value;
      k == i + Match(s[i..]).value.0 && g == Match(s[i..]).value.1
    ensures 0 < k <= |s| && s[k - 1] != ' ' && s[k - 1] != '-'
    ensures TermSub(s) == s[..k] + (" - " + g)
  {
    var i := MatchPos(s).value;
    var m := Match(s[i..]).value;
    k, g := i + m.0, m.1;
    assert s[i..][m.0 - 1] == s[k - 1];
  }

  /**
   * Joining a prefix of a text without " - " to `g` with " - " splits back
   * into that prefix first, when it cannot supply the mark's first characters.
   */
  lemma SplitBeforeMark(s: string, k: nat, g: string)
    requires 0 < k <= |s| && s[k - 1] != ' ' && s[k - 1] != '-' && !Contains(s, " - ")
    ensures Split(s[..k] + (" - " + g), " - ")[0] == s[..k]
  {
    var r := s[..k] + (" - " + g);
    assert OccursAt(r, " - ", k) by { assert r[k..k + 3] == " - "; }
    NoMarkBefore(s, k, g);
    IndexOfAt(r, " - ", k);
    assert r[..k] == s[..k];
  }

  lemma NoMarkBefore(s: string, k: nat, g: string)
    requires 0 < k <= |s| && s[k - 1] != ' ' && s[k - 1] != '-' && !Contains(s, " - ")
    ensures forall j: nat :: j < k ==> !OccursAt(s[..k] + (" - " + g), " - ", j)
  {
    var r := s[..k] + (" - " + g);
    forall j: nat | j < k ensures !OccursAt(r, " - ", j) {
      if j + 3 <= k {
        assert r[j..j + 3] == s[j..j + 3];
        assert !OccursAt(s, " - ", j);
      } else if j + 2 == k {
        assert r[j..j + 3][1] == s[k - 1];
      } else {
        assert r[j..j + 3][0] == s[k - 1];
      }
    }
  }

  // ----------------------------------------------------------- one item

  /** Texts that look like descriptions but are whitelisted keywords. */
  const Whitelist: string := "Rättsprövning enligt lagen (2006:304) om rättsprövning av vissa regeringsbeslut"

  /** `probable_description`: not whitelisted and at least 50 characters long. */
  predicate ProbableDescription(s: string) { s != Whitelist && |s| >= 50 }

  /** Length of the leading run of characters `\W+` matches. */
  function NonWordLen(s: string): (k: nat)
    ensures k <= |s| && (k < |s| ==> IsWordChar(s[k]))
    ensures forall i :: 0 <= i < k ==> !IsWordChar(s[i])
  {
    if s != [] && !IsWordChar(s[0]) then 1 + NonWordLen(s[1..]) else 0
  }

  /** `capitalize`: `re.sub("^\W+", "", s)` followed by `util.ucfirst`. */
  function Capitalize(s: string): (r: string)
    ensures r == [] <==> forall i :: 0 <= i < |s| ==> !IsWordChar(s[i])
    ensures |r| <= |s|
    ensures r != [] ==> IsWordChar(r[0]) && !IsLowerChar(r[0])
    ensures r != [] ==> r[1..] == s[|s| - |r| + 1..]
  {
    var t := s[NonWordLen(s)..];
    if t == [] then [] else [UpperChar(t[0])] + t[1..]
  }

  /** The keywords of one item's parts: the parts that are not descriptions, capitalized. */
  function KeywordsOf(parts: seq<string>): seq<string>
  {
    if parts == [] then []
    else
      var p := parts[|parts| - 1];
      KeywordsOf(parts[..|parts| - 1]) + (if ProbableDescription(p) then [] else [Capitalize(p)])
  }

  /** The descriptions of one item's parts, capitalized. */
  function DescsOf(parts: seq<string>): seq<string>
  {
    if parts == [] then []
    else
      var p := parts[|parts| - 1];
      DescsOf(parts[..|parts| - 1]) + (if ProbableDescription(p) then [Capitalize(p)] else [])
  }

  lemma PartStep(parts: seq<string>, idx: nat)
    requires idx < |parts|
    ensures var p := parts[idx];
      KeywordsOf(parts[..idx + 1]) == KeywordsOf(parts[..idx]) + (if ProbableDescription(p) then [] else [Capitalize(p)]) &&
      DescsOf(parts[..idx + 1]) == DescsOf(parts[..idx]) + (if ProbableDescription(p) then [Capitalize(p)] else [])
  {
    assert parts[..idx + 1][..idx] == parts[..idx];
  }

  /** The inner loop over `enumerate(substrings)`. */
  method ItemKeywords(parts: seq<string>) returns (subres: seq<string>, descs: seq<string>)
    ensures subres == KeywordsOf(parts) && descs == DescsOf(parts)
  {
    subres, descs := [], [];
    for idx := 0 to |parts|
      invariant subres == KeywordsOf(parts[..idx]) && descs == DescsOf(parts[..idx])
    {
      PartStep(parts, idx);
      var subs := parts[idx];
      if !ProbableDescription(subs) {
        subres := subres + [Capitalize(subs)];
      } else {
        descs := descs + [Capitalize(subs)];
      }
    }
    assert parts[..|parts|] == parts;
  }

  /** Every part goes to exactly one of the two lists. */
  lemma {:induction false} PartsPartitioned(parts: seq<string>)
    ensures |KeywordsOf(parts)| + |DescsOf(parts)| == |parts|
  {
    if parts != [] {
      PartsPartitioned(parts[..|parts| - 1]);
    }
  }

  /** An item yields a description exactly when one of its parts is one. */
  lemma {:induction false} DescsOfIff(parts: seq<string>)
    ensures DescsOf(parts) != [] <==> exists p :: p in parts && ProbableDescription(p)
  {
    if parts != [] {
      var init := parts[..|parts| - 1];
      DescsOfIff(init);
      assert parts == init + [parts[|parts| - 1]];
      assert forall p :: p in init ==> p in parts;
      if DescsOf(init) == [] && !ProbableDescription(parts[|parts| - 1]) {
        forall p | p in parts ensures !ProbableDescription(p) {
          if p != parts[|parts| - 1] { assert p in init; }
        }
      }
    }
  }

  /** Every keyword starts with a word character that is not lower-case, when it is not empty. */
  lemma {:induction false} KeywordsCapitalized(parts: seq<string>)
    ensures forall k :: k in KeywordsOf(parts) ==> k == [] || (IsWordChar(k[0]) && !IsLowerChar(k[0]))
  {
    if parts != [] {
      KeywordsCapitalized(parts[..|parts| - 1]);
    }
  }

  /**
   * One item: blank after `normalize_space` gives nothing; otherwise its
   * parts after the term rewrite, applied only when " - " is absent.
   */
  function ItemParts(item: string): Option<seq<string>>
  {
    var s := NormalizeSpace(item);
    if s == "" then None
    else Some(Split(if Contains(s, " - ") then s else TermSub(s), " - "))
  }

  // ------------------------------------------------------------ all items

  /** `res`: one tuple per non-blank item. */
  function Tuples(items: seq<string>): seq<seq<string>>
  {
    if items == [] then []
    else
      Tuples(items[..|items| - 1]) +
      (match ItemParts(items[|items| - 1]) case None => [] case Some(ps) => [KeywordsOf(ps)])
  }

  /** One item's descriptions: none for a blank item. */
  function ItemDescs(item: string): seq<string>
  {
    match ItemParts(item)
    case None => []
    case Some(ps) => DescsOf(ps)
  }

  /** `descs` before sorting: every item's descriptions, in order. */
  function Descs(items: seq<string>): seq<string>
  {
    Flatten(items, ItemDescs)
  }

  /** Some part of a non-blank item is a probable description. */
  predicate HasDescription(item: string)
  {
    ItemParts(item).Some? && exists p :: p in ItemParts(item).value && ProbableDescription(p)
  }

  /** How many items are not blank. */
  function NonBlank(items: seq<string>): nat
  {
    if items == [] then 0
    else NonBlank(items[..|items| - 1]) + (if NormalizeSpace(items[|items| - 1]) == "" then 0 else 1)
  }

  lemma {:induction false} OneTuplePerItem(items: seq<string>)
    ensures |Tuples(items)| == NonBlank(items)
  {
    if items != [] {
      OneTuplePerItem(items[..|items| - 1]);
    }
  }

  predicate AnyDescription(items: seq<string>)
  {
    exists i :: 0 <= i < |items| && HasDescription(items[i])
  }

  /** Some description is found exactly when some part of some non-blank item is one. */
  lemma DescsIff(items: seq<string>)
    ensures Descs(items) != [] <==> AnyDescription(items)
  {
    FlattenNonEmpty(items, ItemDescs);
    forall i | 0 <= i < |items| ensures ItemDescs(items[i]) != [] <==> HasDescription(items[i]) {
      if ItemParts(items[i]).Some? {
        DescsOfIff(ItemParts(items[i]).value);
      }
    }
  }

  // ---------------------------------------------- sorting and pruning descs

  /** Inserts `x` after every element not longer than it: a stable insertion. */
  function InsertByLen(x: string, s: seq<string>): (r: seq<string>)
    ensures multiset(r) == multiset(s) + multiset{x}
  {
    if s == [] || |x| < |s[0]| then [x] + s
    else
      assert s == [s[0]] + s[1..];
      [s[0]] + InsertByLen(x, s[1..])
  }

  /** `descs.sort(key=len)`: a stable sort by length. */
  function SortByLen(d: seq<string>): (r: seq<string>)
    ensures multiset(r) == multiset(d)
  {
    if d == [] then []
    else
      assert d == d[..|d| - 1] + [d[|d| - 1]];
      InsertByLen(d[|d| - 1], SortByLen(d[..|d| - 1]))
  }

  predicate SortedByLen(s: seq<string>)
  {
    forall i, j :: 0 <= i < j < |s| ==> |s[i]| <= |s[j]|
  }

  lemma {:induction false} InsertSorted(x: string, s: seq<string>)
    requires SortedByLen(s)
    ensures SortedByLen(InsertByLen(x, s))
  {
    if s != [] && |x| >= |s[0]| {
      InsertSorted(x, s[1..]);
      var r := InsertByLen(x, s[1..]);
      assert multiset(r) == multiset(s[1..]) + multiset{x};
      forall k | 0 <= k < |r| ensures |s[0]| <= |r[k]| {
        assert r[k] in multiset(r);
        if r[k] != x {
          assert r[k] in multiset(s[1..]);
          var m :| 0 <= m < |s[1..]| && s[1..][m] == r[k];
          assert s[1..][m] == s[m + 1];
        }
      }
    }
  }

  lemma {:induction false} SortByLenSorted(d: seq<string>)
    ensures SortedByLen(SortByLen(d))
  {
    if d != [] {
      SortByLenSorted(d[..|d| - 1]);
      InsertSorted(d[|d| - 1], SortByLen(d[..|d| - 1]));
    }
  }

  /** Whether the comprehension keeps position `idx`: it is the last, or not a substring of the next. */
  predicate KeptAt(d: seq<string>, idx: nat)
    requires idx < |d|
  {
    idx + 1 == |d| || !Contains(d[idx + 1], d[idx])
  }

  /** `[desc for idx, desc in enumerate(descs) if (idx + 1) == len(descs) or desc not in descs[idx+1]]`. */
  function Prune(d: seq<string>, from: nat): (r: seq<string>)
    requires from <= |d|
    ensures from < |d| ==> r != [] && r[|r| - 1] == d[|d| - 1]
    decreases |d| - from
  {
    if from == |d| then []
    else
      var rest := Prune(d, from + 1);
      var r := (if KeptAt(d, from) then [d[from]] else []) + rest;
      assert from + 1 < |d| ==> r[|r| - 1] == rest[|rest| - 1];
      r
  }

  /** The comprehension keeps exactly the elements at the positions `KeptAt` accepts. */
  lemma {:induction false} PruneMembers(d: seq<string>, from: nat)
    requires from <= |d|
    ensures forall x :: x in Prune(d, from) <==> exists idx :: from <= idx < |d| && KeptAt(d, idx) && d[idx] == x
    decreases |d| - from
  {
    if from < |d| {
      PruneMembers(d, from + 1);
      var rest := Prune(d, from + 1);
      var head := if KeptAt(d, from) then [d[from]] else [];
      assert Prune(d, from) == head + rest;
      forall x ensures x in Prune(d, from) <==> exists idx :: from <= idx < |d| && KeptAt(d, idx) && d[idx] == x {
        if x in Prune(d, from) && x !in rest {
          assert x in head;
          assert from <= from < |d| && KeptAt(d, from) && d[from] == x;
        }
        if exists idx :: from <= idx < |d| && KeptAt(d, idx) && d[idx] == x {
          var idx :| from <= idx < |d| && KeptAt(d, idx) && d[idx] == x;
          if idx == from {
            assert x in head;
          } else {
            assert x in rest;
          }
        }
      }
    }
  }

  /**
   * After the sort, the longest description is always kept, and every kept
   * one comes from the list.
   */
  lemma LongestKept(d: seq<string>)
    requires d != []
    ensures var kept := Prune(SortByLen(d), 0);
      kept != [] && (forall x :: x in d ==> |x| <= |kept[|kept| - 1]|) && (forall x :: x in kept ==> x in d)
  {
    var s := SortByLen(d);
    assert multiset(s) == multiset(d);
    assert s != [] by { assert |s| == |multiset(s)| == |multiset(d)| == |d|; }
    SortByLenSorted(d);
    var kept := Prune(s, 0);
    forall x | x in d ensures |x| <= |kept[|kept| - 1]| {
      assert x in multiset(s);
      var k :| 0 <= k < |s| && s[k] == x;
      assert k == |s| - 1 || |s[k]| <= |s[|s| - 1]|;
    }
    PruneMembers(s, 0);
    forall x | x in kept ensures x in d {
      var idx :| 0 <= idx < |s| && KeptAt(s, idx) && s[idx] == x;
      assert s[idx] in multiset(s);
    }
  }

  // ---------------------------------------------------------------- outcome

  /** `return res`, or `raise KeywordContainsDescription(res, descs)`. */
  datatype Outcome =
    | Keywords(res: seq<seq<string>>)
    | KeywordContainsDescription(res: seq<seq<string>>, descs: seq<string>)

  /** The delimiter: "," for basefiles under "XXX/", else ";". */
  function Delimiter(basefile: string): (c: char)
    ensures c == ',' <==> StartsWith(basefile, "XXX/")
  {
    if StartsWith(basefile, "XXX/") then ',' else ';'
  }

  /** The outcome for the items the delimiter separates. */
  function SokordOf(items: seq<string>): Outcome
  {
    var descs := Descs(items);
    if descs == [] then Keywords(Tuples(items))
    else KeywordContainsDescription(Tuples(items), Prune(SortByLen(descs), 0))
  }

  function Sokord(sokord: string, basefile: string): Outcome
  {
    SokordOf(Split(sokord, [Delimiter(basefile)]))
  }

  lemma ItemStep(items: seq<string>, i: nat)
    requires i < |items|
    ensures Tuples(items[..i + 1]) ==
      Tuples(items[..i]) + (match ItemParts(items[i]) case None => [] case Some(ps) => [KeywordsOf(ps)])
    ensures Descs(items[..i + 1]) == Descs(items[..i]) + ItemDescs(items[i])
  {
    assert items[..i + 1][..i] == items[..i];
    FlattenStep(items, i, ItemDescs);
  }

  method SanitizeSokord(sokord: string, basefile: string) returns (r: Outcome)
    ensures r == Sokord(sokord, basefile)
  {
    var delimiter := if StartsWith(basefile, "XXX/") then ',' else ';';
    var items := Split(sokord, [delimiter]);
    var res: seq<seq<string>> := [];
    var descs: seq<string> := [];
    for i := 0 to |items|
      invariant res == Tuples(items[..i]) && descs == Descs(items[..i])
    {
      ItemStep(items, i);
      var s := NormalizeSpace(items[i]);
      if s != "" {
        if !Contains(s, " - ") {
          s := TermSub(s);
        }
        var substrings := Split(s, " - ");
        var subres, d := ItemKeywords(substrings);
        res := res + [subres];
        descs := descs + d;
      }
    }
    assert items[..|items|] == items;
    if descs != [] {
      r := KeywordContainsDescription(res, Prune(SortByLen(descs), 0));
    } else {
      r := Keywords(res);
    }
  }

  /** The result, returned or carried by the exception, has one tuple per non-blank item. */
  lemma SokordTuples(items: seq<string>)
    ensures |SokordOf(items).res| == NonBlank(items)
  {
    OneTuplePerItem(items);
  }

  /** `KeywordContainsDescription` is raised exactly when some part of some non-blank item is a description. */
  lemma SokordRaisesIff(items: seq<string>)
    ensures SokordOf(items).KeywordContainsDescription? <==> AnyDescription(items)
  {
    DescsIff(items);
  }

  /** The exception carries the longest description found, last, and only descriptions found. */
  lemma SokordLongest(items: seq<string>)
    ensures var r := SokordOf(items);
      r.KeywordContainsDescription? ==>
        r.descs != [] && (forall x :: x in Descs(items) ==> |x| <= |r.descs[|r.descs| - 1]|) &&
        (forall x :: x in r.descs ==> x in Descs(items))
  {
    var d := Descs(items);
    if d != [] {
      var kept := Prune(SortByLen(d), 0);
      assert SokordOf(items).descs == kept;
      LongestKept(d);
      assert forall x :: x in d ==> |x| <= |kept[|kept| - 1]|;
    }
  }
}
