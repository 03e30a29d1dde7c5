/**
 * lagen.nu's autocomplete helpers: completing a partial legal reference so
 * that the citation parser can turn it into a URI (and counting how many
 * characters of that URI were only padding), and reshaping a search hit for
 * the autocomplete response.
 *
 * The citation parser is a parameter: a function from a reference string to
 * the list of nodes it finds, each with or without a uri.
 */
module WsgiApp {
  import opened Wrappers
  import opened PyStr

  const SnippetLength: nat := 160

  // ------------------------------------------- page references: " s. " normalisation

  /** Length of the whitespace run that starts `s`. */
  function SpaceRun(s: string): (n: nat)
    ensures n <= |s|
    ensures n < |s| ==> !IsSpace(s[n])
  {
    if |s| > 0 && IsSpace(s[0]) then 1 + SpaceRun(s[1..]) else 0
  }

  /**
   * The end of a match of `\s*s\s*(\d)` starting at the beginning of `s`, if
   * there is one, and whether its "s" comes right at the start (no leading
   * whitespace).
   */
  function PageRefMatch(s: string): (m: Option<(nat, bool)>)
    ensures m.Some? ==> 2 <= m.value.0 <= |s| && IsDigit(s[m.value.0 - 1])
    ensures m.Some? ==> (m.value.1 <==> s[0] == 's')
  {
    var j := SpaceRun(s);
    if j < |s| && s[j] == 's' then
      var k := j + 1 + SpaceRun(s[j + 1..]);
      if k < |s| && IsDigit(s[k]) then Some((k + 1, j == 0)) else None
    else None
  }

  /** `re.sub(r"\s*s\s*(\d)", " s. \\1", q)`: every leftmost match, scanning left to right. */
  function SubPageRefAsWritten(q: string): string
    decreases |q|
  {
    if q == [] then []
    else match PageRefMatch(q)
      case Some((n, _)) => " s. " + [q[n - 1]] + SubPageRefAsWritten(q[n..])
      case None => [q[0]] + SubPageRefAsWritten(q[1..])
  }

  predicate IsLetter(c: char) { IsUpperChar(c) || IsLowerChar(c) }

  /**
   * The page-reference substitution as intended: an "s" that ends a word (the
   * "s" of "Ds") does not start a page reference. `afterLetter` says whether
   * the character before `q` is a letter.
   */
  function SubPageRef(q: string, afterLetter: bool): string
    decreases |q|
  {
    if q == [] then []
    else
      var m := PageRefMatch(q);
      if m.Some? && !(afterLetter && m.value.1) then
        var n := m.value.0;
        " s. " + [q[n - 1]] + SubPageRef(q[n..], false)
      else [q[0]] + SubPageRef(q[1..], IsLetter(q[0]))
  }

  /** No "s" of `q` directly follows a letter, counting `afterLetter` as the letter before q[0]. */
  predicate NoWordFinalS(q: string, afterLetter: bool)
  {
    (afterLetter && q != [] ==> q[0] != 's') &&
    forall j :: 1 <= j < |q| ==> q[j] == 's' ==> !IsLetter(q[j - 1])
  }

  /** Where no "s" follows a letter, the intended substitution is the one written. */
  lemma {:induction false} SubPageRefAgrees(q: string, afterLetter: bool)
    requires NoWordFinalS(q, afterLetter)
    ensures SubPageRef(q, afterLetter) == SubPageRefAsWritten(q)
    decreases |q|
  {
    if q != [] {
      var m := PageRefMatch(q);
      if m.Some? {
        var n := m.value.0;
        assert NoWordFinalS(q[n..], false) by {
          forall j | 1 <= j < |q[n..]| && q[n..][j] == 's' ensures !IsLetter(q[n..][j - 1]) {
            assert q[n + j] == 's' && q[n..][j - 1] == q[n + j - 1];
          }
        }
        SubPageRefAgrees(q[n..], false);
      } else {
        assert NoWordFinalS(q[1..], IsLetter(q[0])) by {
          forall j | 1 <= j < |q[1..]| && q[1..][j] == 's' ensures !IsLetter(q[1..][j - 1]) {
            assert q[j + 1] == 's' && q[1..][j - 1] == q[j];
          }
        }
        SubPageRefAgrees(q[1..], IsLetter(q[0]));
      }
    }
  }

  /** A string without any "s" goes through the substitution unchanged. */
  lemma {:induction false} SubPageRefNoS(q: string, afterLetter: bool)
    requires forall i :: 0 <= i < |q| ==> q[i] != 's'
    ensures SubPageRef(q, afterLetter) == q
    decreases |q|
  {
    if q != [] {
      assert PageRefMatch(q).None? by {
        var j := SpaceRun(q);
        if j < |q| { assert q[j] != 's'; }
      }
      SubPageRefNoS(q[1..], IsLetter(q[0]));
    }
  }

  /** A string without any "s" goes through the substitution as written unchanged. */
  lemma {:induction false} SubPageRefAsWrittenNoS(q: string)
    requires forall i :: 0 <= i < |q| ==> q[i] != 's'
    ensures SubPageRefAsWritten(q) == q
    decreases |q|
  {
    if q != [] {
      NoMatchWithoutS(q);
      SubPageRefAsWrittenNoS(q[1..]);
    }
  }

  lemma NoMatchWithoutS(q: string)
    requires forall i :: 0 <= i < |q| ==> q[i] != 's'
    ensures PageRefMatch(q).None?
  {
    var j := SpaceRun(q);
    if j < |q| { assert q[j] != 's'; }
  }

  /** A character that starts no match is copied, as written. */
  lemma AsWrittenSkip(c: char, rest: string)
    requires PageRefMatch([c] + rest).None?
    ensures SubPageRefAsWritten([c] + rest) == [c] + SubPageRefAsWritten(rest)
  {
    assert ([c] + rest)[1..] == rest;
  }

  /** A character that starts no match (or whose "s" follows a letter) is copied, as intended. */
  lemma FixedSkip(c: char, rest: string, afterLetter: bool)
    requires PageRefMatch([c] + rest).None? || (afterLetter && c == 's')
    ensures SubPageRef([c] + rest, afterLetter) == [c] + SubPageRef(rest, IsLetter(c))
  {
    assert ([c] + rest)[1..] == rest;
  }

  /** The leading "Ds" of a departmental-series reference is kept by the intended substitution. */
  lemma DsKept(n: string)
    requires forall i :: 0 <= i < |n| ==> n[i] != 's'
    ensures SubPageRef("Ds " + n, false) == "Ds " + n
  {
    var r := [' '] + n;
    var q := ['D'] + (['s'] + r);
    assert "Ds " + n == q;
    DsKeptSteps(n, r, q);
  }

  lemma DsKeptSteps(n: string, r: string, q: string)
    requires forall i :: 0 <= i < |n| ==> n[i] != 's'
    requires r == [' '] + n && q == ['D'] + (['s'] + r)
    ensures SubPageRef(q, false) == q
  {
    NoMatchWithoutS(r) by {
      forall i | 0 <= i < |r| ensures r[i] != 's' { if i > 0 { assert r[i] == n[i - 1]; } }
    }
    assert r[1..] == n;
    SubPageRefNoS(n, false);
    FixedSkip(' ', n, true);
    FixedSkip('s', r, true);
    assert SpaceRun(q) == 0;
    FixedSkip('D', ['s'] + r, false);
  }

  /** As written, the "s" of "Ds" starts a page reference and the abbreviation is split. */
  lemma DsSplitAsWritten(n: string)
    requires n != [] && IsDigit(n[0]) && forall i :: 0 <= i < |n| ==> n[i] != 's'
    ensures SubPageRefAsWritten("Ds " + n) == "D s. " + n
  {
    var r := ['s'] + ([' '] + n);
    var q := ['D'] + r;
    assert "Ds " + n == q;
    var out := ['D'] + (" s. " + [n[0]] + n[1..]);
    assert "D s. " + n == out;
    DsSplitSteps(n, r, q, out);
  }

  lemma DsSplitSteps(n: string, r: string, q: string, out: string)
    requires n != [] && IsDigit(n[0]) && forall i :: 0 <= i < |n| ==> n[i] != 's'
    requires r == ['s'] + ([' '] + n) && q == ['D'] + r && out == ['D'] + (" s. " + [n[0]] + n[1..])
    ensures SubPageRefAsWritten(q) == out
  {
    assert SpaceRun(r) == 0;
    assert r[1..] == [' '] + n;
    assert ([' '] + n)[1..] == n;
    assert SpaceRun([' '] + n) == 1 + SpaceRun(n);
    assert SpaceRun(n) == 0;
    assert PageRefMatch(r) == Some((3, true));
    assert r[3..] == n[1..] && r[2] == n[0];
    SubPageRefAsWrittenNoS(n[1..]);
    assert SubPageRefAsWritten(r) == " s. " + [n[0]] + n[1..];
    assert SpaceRun(q) == 0;
    AsWrittenSkip('D', r);
  }

  /** `re.sub(r"^prop(\s+|$)", "prop. ", q)`. */
  function SubProp(q: string): (r: string)
    ensures StartsWith(q, "prop") ==> StartsWith(r, "prop")
    ensures !StartsWith(q, "prop") ==> r == q
  {
    if StartsWith(q, "prop") && (|q| == 4 || IsSpace(q[4])) then "prop. " + LStrip(q[4..]) else q
  }

  // ----------------------------------------------- preparatory works: padding

  const PreparatoryPrefixes: seq<string> := ["prop", "ds", "sou", "dir"]

  /** `partial_ref.lower().startswith(("prop", "ds", "sou", "dir"))`. */
  predicate IsPreparatory(ref: string)
  {
    exists p :: p in PreparatoryPrefixes && StartsWith(Lower(ref), p)
  }

  /** A padded reference and how many trailing characters of its URI are only padding. */
  datatype Padding = Padding(ref: string, remove: int)

  /** `"0" * n`: empty for n <= 0. */
  function Zeros(n: int): (z: string)
    ensures |z| == if n > 0 then n else 0
    ensures forall i :: 0 <= i < |z| ==> z[i] == '0'
  {
    if n <= 0 then "" else "0" + Zeros(n - 1)
  }

  /** The reference after both substitutions and `strip()`. */
  function Normalised(ref: string): string
  {
    Strip(SubProp(SubPageRef(ref, false)))
  }

  function Last(segs: seq<string>): string requires |segs| > 0 { segs[|segs| - 1] }

  /**
   * The padding a normalised preparatory-work reference `t` gets, stated on
   * `t` itself: what is appended to it, and the remove count.
   */
  function PreparatoryPadding(t: string): Padding
  {
    var segs := Split(t, " ");
    var last := Last(segs);
    if |segs| < 2 then Padding(t + " " + "1999/00:1", 9)
    else if |segs| < 3 then
      if EndsWith(last, "/") then Padding(t + "00:1", 4)
      else if EndsWith(last, ":") then Padding(t + "1", 1)
      else if IsDigits(last) then Padding(t + (Zeros(4 - |last|) + "/00:1"), 4 - |last| + 5)
      else Padding(t, 0)
    else if last == "" then Padding(t + " " + "s." + " " + "1", 0)
    else if !IsDigits(last) then Padding(t + " " + "1", 1)
    else Padding(t, 0)
  }

  lemma JoinSnoc(segs: seq<string>, x: string, sep: string)
    requires segs != []
    ensures Join(segs + [x], sep) == Join(segs, sep) + sep + x
    decreases |segs|
  {
    if |segs| > 1 {
      assert (segs + [x])[1..] == segs[1..] + [x];
      JoinSnoc(segs[1..], x, sep);
    }
  }

  lemma JoinExtendLast(segs: seq<string>, x: string, sep: string)
    requires segs != []
    ensures Join(segs[|segs| - 1 := Last(segs) + x], sep) == Join(segs, sep) + x
    decreases |segs|
  {
    if |segs| > 1 {
      assert segs[|segs| - 1 := Last(segs) + x][1..] == segs[1..][|segs| - 2 := Last(segs[1..]) + x];
      JoinExtendLast(segs[1..], x, sep);
    }
  }

  /** The padding of expand_partial_ref for preparatory works: normalise, then pad the segments. */
  method PadPreparatory(partialRef: string) returns (p: Padding)
    ensures p == PreparatoryPadding(Normalised(partialRef))
  {
    var q := SubPageRef(partialRef, false);
    q := SubProp(q);
    p := PadSegments(Strip(q));
  }

  /** The segment list: split on " ", the last segment completed or a segment added, joined again. */
  method PadSegments(t: string) returns (p: Padding)
    ensures p == PreparatoryPadding(t)
  {
    var segments := Split(t, " ");
    JoinSplit(t, " ");
    PreparatoryCases(t);
    var remove := 0;
    if |segments| < 2 {
      JoinSnoc(segments, "1999/00:1", " ");
      segments := segments + ["1999/00:1"];
      remove := 9;
    } else if |segments| < 3 {
      var last := segments[|segments| - 1];
      if EndsWith(last, "/") {
        JoinExtendLast(segments, "00:1", " ");
        segments := segments[|segments| - 1 := last + "00:1"];
        remove := 4;
      } else if EndsWith(last, ":") {
        JoinExtendLast(segments, "1", " ");
        segments := segments[|segments| - 1 := last + "1"];
        remove := 1;
      } else if IsDigits(last) {
        remove := 4 - |last|;  // right-pad with zeros
        JoinExtendLast(segments, Zeros(remove) + "/00:1", " ");
        segments := segments[|segments| - 1 := last + (Zeros(remove) + "/00:1")];
        remove := remove + 5;
      }
    } else {
      var last := segments[|segments| - 1];
      if last == "" {
        JoinSnoc2(segments, "s.", "1", " ");
        segments := segments + ["s.", "1"];
      } else if !IsDigits(last) {
        JoinSnoc(segments, "1", " ");
        segments := segments + ["1"];
        remove := 1;
      }
    }
    p := Padding(Join(segments, " "), remove);
  }

  /** PreparatoryPadding, case by case. */
  lemma PreparatoryCases(t: string)
    ensures var segs := Split(t, " "); var last := Last(segs);
      (|segs| < 2 ==> PreparatoryPadding(t) == Padding(t + " " + "1999/00:1", 9)) &&
      (|segs| == 2 && EndsWith(last, "/") ==> PreparatoryPadding(t) == Padding(t + "00:1", 4)) &&
      (|segs| == 2 && !EndsWith(last, "/") && EndsWith(last, ":") ==> PreparatoryPadding(t) == Padding(t + "1", 1)) &&
      (|segs| == 2 && !EndsWith(last, "/") && !EndsWith(last, ":") && IsDigits(last) ==>
        PreparatoryPadding(t) == Padding(t + (Zeros(4 - |last|) + "/00:1"), 4 - |last| + 5)) &&
      (|segs| == 2 && !EndsWith(last, "/") && !EndsWith(last, ":") && !IsDigits(last) ==> PreparatoryPadding(t) == Padding(t, 0)) &&
      (|segs| > 2 && last == "" ==> PreparatoryPadding(t) == Padding(t + " " + "s." + " " + "1", 0)) &&
      (|segs| > 2 && last != "" && !IsDigits(last) ==> PreparatoryPadding(t) == Padding(t + " " + "1", 1)) &&
      (|segs| > 2 && IsDigits(last) ==> PreparatoryPadding(t) == Padding(t, 0))
  {
  }

  lemma JoinSnoc2(segs: seq<string>, x: string, y: string, sep: string)
    requires segs != []
    ensures Join(segs + [x, y], sep) == Join(segs, sep) + sep + x + sep + y
  {
    JoinSnoc(segs, x, sep);
    JoinSnoc(segs + [x], y, sep);
    assert segs + [x, y] == segs + [x] + [y];
  }

  /**
   * The padding only appends to the normalised reference, and the remove
   * count never exceeds what was appended; it is negative exactly for a
   * two-segment reference whose last segment is a run of more than nine digits.
   */
  lemma PreparatoryPaddingBounds(t: string)
    ensures StartsWith(PreparatoryPadding(t).ref, t)
    ensures PreparatoryPadding(t).remove <= |PreparatoryPadding(t).ref| - |t|
    ensures PreparatoryPadding(t).remove < 0 <==>
      |Split(t, " ")| == 2 && IsDigits(Last(Split(t, " "))) && |Last(Split(t, " "))| > 9
  {
    var segs := Split(t, " ");
    var last := Last(segs);
    if |segs| == 2 && IsDigits(last) {
      assert !EndsWith(last, "/") && !EndsWith(last, ":") by {
        assert IsDigit(last[|last| - 1]);
      }
    }
  }

  /** A stripped reference never ends with a blank segment, so the " s. 1" padding is never chosen. */
  lemma TrailingBlankSegmentUnreachable(ref: string)
    ensures var segs := Split(Normalised(ref), " ");
      |segs| >= 2 ==> Last(segs) != ""
  {
    StripEndsNonSpace(SubProp(SubPageRef(ref, false)));
    NoBlankLastSegment(Normalised(ref));
  }

  /**
   * What the " s. 1" padding is for: split before stripping, a reference
   * with a trailing blank such as "Prop. 1997/98:12 " has a blank last
   * segment and gains the page reference "s. 1".
   */
  lemma TrailingBlankPaddedUnstripped(a: string, b: string)
    requires a != "" && b != ""
    requires (forall i :: 0 <= i < |a| ==> a[i] != ' ') && (forall i :: 0 <= i < |b| ==> b[i] != ' ')
    ensures Split(a + " " + b + " ", " ") == [a, b, ""]
    ensures PreparatoryPadding(a + " " + b + " ") == Padding(a + " " + b + " " + " " + "s." + " " + "1", 0)
  {
    assert a + " " + b + " " == a + [' '] + (b + [' '] + "");
    SplitAtChar(a, ' ', b + [' '] + "");
    SplitAtChar(b, ' ', "");
    SplitNoChar("", ' ');
  }

  lemma StripEndsNonSpace(s: string)
    ensures Strip(s) != [] ==> !IsSpace(Strip(s)[|Strip(s)| - 1])
  {
  }

  /** A string that does not end in white space does not split into a blank last segment. */
  lemma NoBlankLastSegment(t: string)
    requires t != [] ==> !IsSpace(t[|t| - 1])
    ensures var segs := Split(t, " "); |segs| >= 2 ==> Last(segs) != ""
  {
    var segs := Split(t, " ");
    if |segs| >= 2 {
      var init := segs[..|segs| - 1];
      assert t == Join(init, " ") + " " + Last(segs) by {
        JoinSplit(t, " ");
        JoinSnoc(init, Last(segs), " ");
        assert init + [Last(segs)] == segs;
      }
    }
  }

  /** A number of a departmental series, as in "Ds 1998:5": no blanks, no "s", not all digits. */
  predicate SeriesNumber(n: string)
  {
    n != [] && IsDigit(n[0]) && !IsDigits(n) && !EndsWith(n, "/") && !EndsWith(n, ":") &&
    forall i :: 0 <= i < |n| ==> n[i] != 's' && n[i] != ' ' && !IsSpace(n[i])
  }

  /** As written, "Ds 1998:5" is padded as if "s. 1998:5" were a page reference: "D s. 1998:5 1". */
  lemma DsPaddedAsWritten(n: string)
    requires SeriesNumber(n)
    ensures PreparatoryPadding(Strip(SubProp(SubPageRefAsWritten("Ds " + n)))) == Padding("D s. " + n + " " + "1", 1)
  {
    DsSplitAsWritten(n);
    var t := "D s. " + n;
    assert t[0] == 'D' && t[|t| - 1] == n[|n| - 1];
    Untouched(t);
    PadSplitDs(t, n);
  }

  lemma PadSplitDs(t: string, n: string)
    requires SeriesNumber(n) && t == "D s. " + n
    ensures PreparatoryPadding(t) == Padding(t + " " + "1", 1)
  {
    assert t == "D" + " " + ("s." + " " + n);
    SplitSpaces3("D", "s.", n);
    PadThree(t, "D", "s.", n);
  }

  /** A reference that starts with "D" and ends in no blank is left alone by the normalisation. */
  lemma Untouched(q: string)
    requires q != [] && q[0] == 'D' && !IsSpace(q[|q| - 1])
    ensures Strip(SubProp(q)) == q
  {
    StripTrimmed(q);
  }

  /** With the intended substitution, "Ds 1998:5" is already complete and nothing is padded. */
  lemma DsPaddedWhenFixed(n: string)
    requires SeriesNumber(n)
    ensures PreparatoryPadding(Normalised("Ds " + n)) == Padding("Ds " + n, 0)
  {
    var r := [' '] + n;
    var q := ['D'] + (['s'] + r);
    assert "Ds " + n == q;
    DsKeptSteps(n, r, q);
    assert q[0] == 'D' && q[|q| - 1] == n[|n| - 1];
    Untouched(q);
    PadDs(q, n);
  }

  lemma PadDs(q: string, n: string)
    requires SeriesNumber(n) && q == ['D'] + (['s'] + ([' '] + n))
    ensures PreparatoryPadding(q) == Padding(q, 0)
  {
    var a := q[..2];
    assert q == a + " " + n;
    SplitSpaces2(a, n);
    PadTwo(q, a, n);
  }

  lemma PadThree(t: string, a: string, b: string, c: string)
    requires Split(t, " ") == [a, b, c] && c != "" && !IsDigits(c)
    ensures PreparatoryPadding(t) == Padding(t + " " + "1", 1)
  {
  }

  lemma PadTwo(t: string, a: string, b: string)
    requires Split(t, " ") == [a, b] && !EndsWith(b, "/") && !EndsWith(b, ":") && !IsDigits(b)
    ensures PreparatoryPadding(t) == Padding(t, 0)
  {
  }

  lemma SplitNoSep(s: string)
    requires forall i :: 0 <= i < |s| ==> s[i] != ' '
    ensures Split(s, " ") == [s]
  {
    IndexOfNoChar(s, ' ');
  }

  /** Splitting at a first word that holds no blank. */
  lemma SplitCons(a: string, rest: string)
    requires forall i :: 0 <= i < |a| ==> a[i] != ' '
    ensures Split(a + " " + rest, " ") == [a] + Split(rest, " ")
  {
    var s := a + " " + rest;
    assert IndexOf(s, " ") == Some(|a|) by {
      assert s[|a|..|a| + 1] == " ";
      forall j: nat | j < |a| ensures !OccursAt(s, " ", j) {
        assert s[j..j + 1][0] == a[j];
      }
      IndexOfAt(s, " ", |a|);
    }
    assert s[..|a|] == a && s[|a| + 1..] == rest;
  }

  lemma SplitSpaces2(a: string, b: string)
    requires forall i :: 0 <= i < |a| ==> a[i] != ' '
    requires forall i :: 0 <= i < |b| ==> b[i] != ' '
    ensures Split(a + " " + b, " ") == [a, b]
  {
    SplitCons(a, b);
    SplitNoSep(b);
  }

  lemma SplitSpaces3(a: string, b: string, c: string)
    requires forall i :: 0 <= i < |a| ==> a[i] != ' '
    requires forall i :: 0 <= i < |b| ==> b[i] != ' '
    requires forall i :: 0 <= i < |c| ==> c[i] != ' '
    ensures Split(a + " " + (b + " " + c), " ") == [a, b, c]
  {
    SplitCons(a, b + " " + c);
    SplitSpaces2(b, c);
  }

  // ------------------------------------------------------- laws: padding

  /** The regex `\d*:?\d*`: digits with at most one colon among them. */
  predicate IsPart(s: string)
  {
    (forall i :: 0 <= i < |s| ==> IsDigit(s[i]) || s[i] == ':') &&
    forall i, j :: 0 <= i < j < |s| && s[i] == ':' ==> s[j] != ':'
  }

  /** Length of the run of " " that starts `s` (the regex ` *`). */
  function Blanks(s: string): (n: nat)
    ensures n <= |s| && (n < |s| ==> s[n] != ' ')
    ensures forall i :: 0 <= i < n ==> s[i] == ' '
  {
    if |s| > 0 && s[0] == ' ' then 1 + Blanks(s[1..]) else 0
  }

  /**
   * `re.match("(abbrevs) *(\d*\:?\d*)$", ref, re.IGNORECASE)`: the first
   * abbreviation, in the alternation's order, that lets the whole reference
   * match; its groups are the abbreviation as typed and the part.
   */
  function MatchLaw(ref: string, abbrevs: seq<string>): (m: Option<(string, string)>)
    ensures m.Some? ==> exists i :: 0 <= i < |abbrevs| && Lower(m.value.0) == Lower(abbrevs[i])
    ensures m.Some? ==> IsPart(m.value.1) && StartsWith(ref, m.value.0) && EndsWith(ref, m.value.1)
  {
    if abbrevs == [] then None
    else
      var a := abbrevs[0];
      if |a| <= |ref| && Lower(ref[..|a|]) == Lower(a) then
        var rest := ref[|a|..];
        var part := rest[Blanks(rest)..];
        if IsPart(part) then
          assert ref[|ref| - |part|..] == part;
          Some((ref[..|a|], part))
        else
          var m := MatchLaw(ref, abbrevs[1..]);
          assert m.Some? ==> exists i :: 1 <= i < |abbrevs| && Lower(m.value.0) == Lower(abbrevs[i]);
          m
      else
        var m := MatchLaw(ref, abbrevs[1..]);
        assert m.Some? ==> exists i :: 1 <= i < |abbrevs| && Lower(m.value.0) == Lower(abbrevs[i]);
        m
  }

  /** An abbreviation followed by blanks and a part is matched (by it or an earlier one). */
  lemma {:induction false} MatchLawComplete(ref: string, abbrevs: seq<string>, i: nat, blanks: nat, part: string)
    requires i < |abbrevs| && IsPart(part)
    requires |abbrevs[i]| <= |ref| && ref == ref[..|abbrevs[i]|] + Spaces(blanks) + part
    requires Lower(ref[..|abbrevs[i]|]) == Lower(abbrevs[i])
    ensures MatchLaw(ref, abbrevs).Some?
    decreases i
  {
    var a := abbrevs[0];
    if i == 0 {
      var rest := ref[|a|..];
      assert rest == Spaces(blanks) + part;
      BlanksOf(blanks, part);
    } else if !(|a| <= |ref| && Lower(ref[..|a|]) == Lower(a) && IsPart(ref[|a|..][Blanks(ref[|a|..])..])) {
      assert abbrevs[1..][i - 1] == abbrevs[i];
      MatchLawComplete(ref, abbrevs[1..], i - 1, blanks, part);
    }
  }

  function Spaces(n: nat): (s: string)
    ensures |s| == n && forall i :: 0 <= i < n ==> s[i] == ' '
  {
    if n == 0 then "" else " " + Spaces(n - 1)
  }

  lemma BlanksOf(n: nat, part: string)
    requires IsPart(part)
    ensures Blanks(Spaces(n) + part) == n && (Spaces(n) + part)[n..] == part
  {
    if n > 0 {
      assert (Spaces(n) + part)[1..] == Spaces(n - 1) + part;
      BlanksOf(n - 1, part);
    } else {
      assert Spaces(0) + part == part;
      if |part| > 0 { assert IsDigit(part[0]) || part[0] == ':'; }
    }
  }

  /** What a law reference gets appended, and how much of its URI that padding makes up. */
  function LawPadding(law: string, part: string, paragraflag: set<string>): (string, nat)
  {
    var paragrafmode := Lower(law) in paragraflag;
    if part != "" then
      if paragrafmode then (" §", 0)
      else if Contains(part, ":") then
        var sect := SplitOnce(part, ":")[1];
        if sect != "" then ("", 0) else ("1", 1)
      else (":1", 2)
    else if paragrafmode then (" 1 §", 1)
    else (" 1:1", 3)
  }

  /** The characters of `s` that reach a URI fragment: digits and colons. */
  function FragmentChars(s: string): nat
  {
    if s == [] then 0 else (if IsDigit(s[0]) || s[0] == ':' then 1 else 0) + FragmentChars(s[1..])
  }

  /**
   * The remove count of a law reference is exactly the number of padded
   * digits and colons; in paragraph mode the padding ends with " §", otherwise
   * the padded part names a section after a colon.
   */
  lemma LawPaddingCounts(law: string, part: string, paragraflag: set<string>)
    requires IsPart(part)
    ensures var (extra, remove) := LawPadding(law, part, paragraflag);
      remove == FragmentChars(extra) &&
      (Lower(law) in paragraflag ==> EndsWith(extra, " §")) &&
      (Lower(law) !in paragraflag ==>
        var filled := if part == "" then "1:1" else part + extra;
        Contains(filled, ":") && IsDigits(SplitOnce(filled, ":")[1]))
  {
    PaddingFragments();
    if Lower(law) !in paragraflag {
      LawSection(part);
    }
  }

  /** The digits and colons in each padding literal. */
  lemma PaddingFragments()
    ensures FragmentChars(" 1:1") == 3 && FragmentChars(" 1 §") == 1 && FragmentChars(" §") == 0
    ensures FragmentChars(":1") == 2 && FragmentChars("1") == 1 && FragmentChars("") == 0
  {
    assert " 1:1"[1..] == "1:1" && "1:1"[1..] == ":1" && ":1"[1..] == "1" && "1"[1..] == "";
    assert " 1 §"[1..] == "1 §" && "1 §"[1..] == " §" && " §"[1..] == "§" && "§"[1..] == "";
  }

  /** Outside paragraph mode the padded part always names a section after its first colon. */
  lemma LawSection(part: string)
    requires IsPart(part)
    ensures var filled := if part == "" then "1:1" else part + (if Contains(part, ":") then (if SplitOnce(part, ":")[1] != "" then "" else "1") else ":1");
      Contains(filled, ":") && IsDigits(SplitOnce(filled, ":")[1])
  {
    if part == "" {
      SectionAfterColon("1", "1");
      assert "1" + ":" + "1" == "1:1";
    } else if Contains(part, ":") {
      SectionWithColon(part);
    } else {
      ColonFree(part);
      SectionAfterColon(part, "1");
    }
  }

  lemma SectionWithColon(part: string)
    requires IsPart(part) && Contains(part, ":")
    ensures var filled := part + (if SplitOnce(part, ":")[1] != "" then "" else "1");
      Contains(filled, ":") && IsDigits(SplitOnce(filled, ":")[1])
  {
    var halves := SplitOnce(part, ":");
    if halves[1] == "" {
      assert part + "1" == halves[0] + ":" + "1";
      SectionAfterColon(halves[0], "1");
    } else {
      assert part + "" == part == halves[0] + ":" + halves[1];
      PartAfterColon(part, halves[0], halves[1]);
      SectionAfterColon(halves[0], halves[1]);
    }
  }

  lemma ColonFree(part: string)
    requires IsPart(part) && !Contains(part, ":")
    ensures forall i :: 0 <= i < |part| ==> IsDigit(part[i])
  {
    forall i | 0 <= i < |part| ensures IsDigit(part[i]) {
      if part[i] == ':' {
        assert OccursAt(part, ":", i);
        ContainsAt(part, ":", i);
      }
    }
  }

  lemma PartAfterColon(part: string, chap: string, sect: string)
    requires IsPart(part) && part == chap + ":" + sect
    ensures forall i :: 0 <= i < |sect| ==> IsDigit(sect[i])
  {
    forall i | 0 <= i < |sect| ensures IsDigit(sect[i]) {
      assert part[|chap|] == ':' && part[|chap| + 1 + i] == sect[i];
    }
  }

  /** Splitting "c:s", with no colon in c, at its first colon gives back s. */
  lemma SectionAfterColon(chap: string, sect: string)
    requires forall i :: 0 <= i < |chap| ==> IsDigit(chap[i])
    requires sect != [] && forall i :: 0 <= i < |sect| ==> IsDigit(sect[i])
    ensures Contains(chap + ":" + sect, ":") && SplitOnce(chap + ":" + sect, ":")[1] == sect
  {
    var s := chap + ":" + sect;
    assert s[|chap|..|chap| + 1] == ":";
    forall j: nat | j < |chap| ensures !OccursAt(s, ":", j) {
      assert s[j..j + 1][0] == chap[j];
    }
    IndexOfAt(s, ":", |chap|);
    ContainsAt(s, ":", |chap|);
    assert s[|chap| + 1..] == sect;
  }

  // ------------------------------------------------------- expand_partial_ref

  datatype Expansion =
    | NoMatch       // not a preparatory work and no law abbreviation matches: None
    | ParserEmpty   // the parser returned no nodes: res[0] raises IndexError
    | Uri(uri: string)

  /** `uri[:-remove]` when remove is non-zero, with Python's slicing of a negative bound. */
  function CutUri(uri: string, remove: int): (r: string)
    ensures |r| <= |uri| && r == uri[..|r|]
  {
    if remove == 0 then uri
    else if remove > 0 then (if remove <= |uri| then uri[..|uri| - remove] else "")
    else (if -remove <= |uri| then uri[..-remove] else uri)
  }

  /** Cutting as many characters as were padded gives the unpadded URI back. */
  lemma CutRemovesPadding(base: string, padding: string)
    ensures CutUri(base + padding, |padding|) == base
  {
    assert (base + padding)[..|base|] == base;
  }

  /** The first node's uri (or ""), with the padding cut off. */
  function Resolve(parse: string -> seq<Option<string>>, p: Padding): Expansion
  {
    var res := parse(p.ref);
    if res == [] then ParserEmpty
    else Uri(CutUri(if res[0].Some? then res[0].value else "", p.remove))
  }

  method ExpandPartialRef(partialRef: string, abbrevs: seq<string>, paragraflag: set<string>,
                          parse: string -> seq<Option<string>>) returns (r: Expansion)
    ensures IsPreparatory(partialRef) ==> r == Resolve(parse, PreparatoryPadding(Normalised(partialRef)))
    ensures !IsPreparatory(partialRef) && MatchLaw(partialRef, abbrevs).None? ==> r == NoMatch
    ensures !IsPreparatory(partialRef) && MatchLaw(partialRef, abbrevs).Some? ==>
      var (law, part) := MatchLaw(partialRef, abbrevs).value;
      var (extra, remove) := LawPadding(law, part, paragraflag);
      r == Resolve(parse, Padding(partialRef + extra, remove))
  {
    var padded: Padding;
    if exists p :: p in PreparatoryPrefixes && StartsWith(Lower(partialRef), p) {
      padded := PadPreparatory(partialRef);
    } else {
      var m := MatchLaw(partialRef, abbrevs);
      if m.None? {
        return NoMatch;
      }
      var (law, part) := m.value;
      var (extra, remove) := LawPadding(law, part, paragraflag);
      padded := Padding(partialRef + extra, remove);
    }
    var res := parse(padded.ref);
    if res == [] {
      return ParserEmpty;
    }
    var uri := "";
    if res[0].Some? {
      uri := res[0].value;
    }
    if padded.remove != 0 {
      uri := CutUri(uri, padded.remove);
    }
    r := Uri(uri);
  }

  // ------------------------------------------------------------ mangle_result

  /** A field of a search hit: a string, or a nested dictionary (`matches`). */
  datatype Value = Str(s: string) | Dict(d: map<string, Value>)

  /** `s[:n]`. */
  function Prefix(s: string, n: nat): (r: string)
    ensures |r| <= n && |r| <= |s| && r == s[..|r|]
    ensures |s| <= n ==> r == s
  {
    if |s| <= n then s else s[..n]
  }

  /** The description step of mangle_result: the hit after it, and whether it completed. */
  function Described(h: map<string, Value>): (map<string, Value>, bool)
  {
    if "rpubl_referatrubrik" in h then
      if h["rpubl_referatrubrik"].Str? then
        (h["desc" := Str(Prefix(h["rpubl_referatrubrik"].s, SnippetLength))] - {"rpubl_referatrubrik"}, true)
      else (h, false)
    else if "rdf_type" in h && (!h["rdf_type"].Str? || EndsWith(h["rdf_type"].s, "#Proposition")) then
      if !h["rdf_type"].Str? || "dcterms_title" !in h then (h, false)
      else
        var h1 := h["desc" := h["dcterms_title"]];
        if "dcterms_identifier" !in h1 then (h1, false)
        else (h1["label" := h1["dcterms_identifier"]], true)
    else if "matches" in h && h["matches"].Dict? && "text" in h["matches"].d && h["matches"].d["text"].Str? then
      (h["desc" := Str(Prefix(h["matches"].d["text"].s, SnippetLength))], true)
    else (h, false)
  }

  /** The hit after mangle_result, and whether it returned (false: a KeyError or TypeError part-way). */
  function Mangled(h: map<string, Value>, acQuery: bool): (map<string, Value>, bool)
  {
    if !acQuery then (h, true)
    else
      var (h1, ok) := Described(h);
      if !ok then (h1, false)
      else if "matches" !in h1 then (h1, false)
      else
        var h2 := h1 - {"matches"};
        if "iri" !in h2 then (h2, false)
        else (h2["url" := h2["iri"]] - {"iri"}, true)
  }

  /**
   * A hit mangled for an autocomplete query has its iri moved to url, no
   * matches and a description of at most 160 characters when it was cut from
   * a string; keys other than desc, label, url and the removed ones are kept.
   * Outside autocomplete the hit is untouched.
   */
  lemma MangledShape(h: map<string, Value>, acQuery: bool)
    ensures !acQuery ==> Mangled(h, acQuery) == (h, true)
    ensures acQuery && Mangled(h, acQuery).1 ==>
      var h' := Mangled(h, acQuery).0;
      "iri" in h && "matches" in h && "url" in h' && h'["url"] == h["iri"] &&
      "iri" !in h' && "matches" !in h' && "desc" in h' &&
      (h'["desc"].Str? && "dcterms_title" !in h ==> |h'["desc"].s| <= SnippetLength) &&
      forall k :: k in h && k !in {"desc", "label", "url", "iri", "matches", "rpubl_referatrubrik"} ==>
        k in h' && h'[k] == h[k]
  {
  }

  /** The hit's `rdf_type` takes the Proposition branch of mangle_result (a non-string one raises there). */
  predicate PropositionType(h: map<string, Value>)
  {
    "rdf_type" in h && (!h["rdf_type"].Str? || EndsWith(h["rdf_type"].s, "#Proposition"))
  }

  /**
   * Where a completed autocomplete mangle takes its description from: the
   * referatrubrik cut to 160 characters (and that key is dropped), else for a
   * Proposition its title (and its identifier becomes the label), else the
   * matched text cut to 160 characters; only the Proposition branch sets label.
   */
  lemma MangledDescription(h: map<string, Value>, acQuery: bool)
    requires acQuery && Mangled(h, acQuery).1
    ensures var h' := Mangled(h, acQuery).0;
      "desc" in h' &&
      ("rpubl_referatrubrik" in h ==>
        h["rpubl_referatrubrik"].Str? && "rpubl_referatrubrik" !in h' &&
        h'["desc"] == Str(Prefix(h["rpubl_referatrubrik"].s, SnippetLength))) &&
      ("rpubl_referatrubrik" !in h && PropositionType(h) ==>
        "dcterms_title" in h && "dcterms_identifier" in h && "label" in h' &&
        h'["desc"] == h["dcterms_title"] && h'["label"] == h["dcterms_identifier"]) &&
      ("rpubl_referatrubrik" !in h && !PropositionType(h) ==>
        "matches" in h && h["matches"].Dict? && "text" in h["matches"].d && h["matches"].d["text"].Str? &&
        h'["desc"] == Str(Prefix(h["matches"].d["text"].s, SnippetLength))) &&
      ("rpubl_referatrubrik" in h || !PropositionType(h) ==>
        ("label" in h' <==> "label" in h) && ("label" in h ==> h'["label"] == h["label"]))
  {
  }

  /**
   * An autocomplete mangle completes exactly when every key it reads is there
   * with the type it expects; otherwise the source raises KeyError (or an
   * AttributeError or TypeError on a value of the wrong type).
   */
  lemma MangledCompletesIff(h: map<string, Value>)
    ensures Mangled(h, true).1 <==>
      "iri" in h && "matches" in h &&
      ("rpubl_referatrubrik" in h ==> h["rpubl_referatrubrik"].Str?) &&
      ("rpubl_referatrubrik" !in h && PropositionType(h) ==>
        h["rdf_type"].Str? && "dcterms_title" in h && "dcterms_identifier" in h) &&
      ("rpubl_referatrubrik" !in h && !PropositionType(h) ==>
        h["matches"].Dict? && "text" in h["matches"].d && h["matches"].d["text"].Str?)
  {
  }

  /** A search hit, a dictionary the autocomplete handler edits in place. */
  class Hit {
    var fields: map<string, Value>

    constructor (fields: map<string, Value>)
      ensures this.fields == fields
    {
      this.fields := fields;
    }

    method MangleResult(acQuery: bool) returns (ok: bool)
      modifies this
      ensures (fields, ok) == Mangled(old(fields), acQuery)
    {
      ok := true;
      if !acQuery {
        return;
      }
      if "rpubl_referatrubrik" in fields {
        var v := fields["rpubl_referatrubrik"];
        if !v.Str? {
          return false;
        }
        fields := fields["desc" := Str(Prefix(v.s, SnippetLength))];
        fields := fields - {"rpubl_referatrubrik"};
      } else if "rdf_type" in fields && (!fields["rdf_type"].Str? || EndsWith(fields["rdf_type"].s, "#Proposition")) {
        if !fields["rdf_type"].Str? || "dcterms_title" !in fields {
          return false;
        }
        fields := fields["desc" := fields["dcterms_title"]];
        if "dcterms_identifier" !in fields {
          return false;
        }
        fields := fields["label" := fields["dcterms_identifier"]];
      } else {
        if "matches" !in fields || !fields["matches"].Dict? || "text" !in fields["matches"].d
           || !fields["matches"].d["text"].Str? {
          return false;
        }
        fields := fields["desc" := Str(Prefix(fields["matches"].d["text"].s, SnippetLength))];
      }
      if "matches" !in fields {
        return false;
      }
      fields := fields - {"matches"};
      if "iri" !in fields {
        return false;
      }
      fields := fields["url" := fields["iri"]];
      fields := fields - {"iri"};
    }
  }
}
