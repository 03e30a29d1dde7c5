/**
 * The Python string operations the modelled code relies on, written out:
 * substring search, `str.split`/`str.join`/`str.replace`, `strip`,
 * whitespace splitting, `isdigit`, `isupper`/`islower`, `lower`/`upper`,
 * `int(...)` parsing and `str(int)` rendering, and the fold behind list
 * comprehensions that build a list from each element in turn.
 *
 * Character classes cover ASCII plus the Swedish letters the sources use;
 * Unicode categories beyond those are not modelled.
 */
module PyStr {
  import opened Wrappers

  // ---------------------------------------------------------------- characters

  /** `c.isspace()` for the whitespace the documents contain. */
  predicate IsSpace(c: char)
  {
    c == ' ' || c == '\t' || c == '\n' || c == '\r' || c == '\U{000B}' || c == '\U{000C}' || c == '\U{00A0}'
  }

  predicate IsDigit(c: char) { '0' <= c <= '9' }

  predicate IsUpperChar(c: char)
  {
    'A' <= c <= 'Z' || c == 'Å' || c == 'Ä' || c == 'Ö' || c == 'É' || c == 'Ü'
  }

  predicate IsLowerChar(c: char)
  {
    'a' <= c <= 'z' || c == 'å' || c == 'ä' || c == 'ö' || c == 'é' || c == 'ü'
  }

  /** A letter, digit or underscore: the regex class `\w`. */
  predicate IsWordChar(c: char)
  {
    IsUpperChar(c) || IsLowerChar(c) || IsDigit(c) || c == '_'
  }

  function LowerChar(c: char): (r: char)
    ensures IsUpperChar(c) ==> IsLowerChar(r)
    ensures !IsUpperChar(c) ==> r == c
  {
    if 'A' <= c <= 'Z' then (c as int + 32) as char
    else if c == 'Å' then 'å' else if c == 'Ä' then 'ä' else if c == 'Ö' then 'ö'
    else if c == 'É' then 'é' else if c == 'Ü' then 'ü'
    else c
  }

  function UpperChar(c: char): (r: char)
    ensures IsLowerChar(c) ==> IsUpperChar(r)
    ensures !IsLowerChar(c) ==> r == c
  {
    if 'a' <= c <= 'z' then (c as int - 32) as char
    else if c == 'å' then 'Å' else if c == 'ä' then 'Ä' else if c == 'ö' then 'Ö'
    else if c == 'é' then 'É' else if c == 'ü' then 'Ü'
    else c
  }

  function Lower(s: string): (r: string)
    ensures |r| == |s|
  {
    seq(|s|, i requires 0 <= i < |s| => LowerChar(s[i]))
  }

  function Upper(s: string): (r: string)
    ensures |r| == |s|
  {
    seq(|s|, i requires 0 <= i < |s| => UpperChar(s[i]))
  }

  lemma UpperAppend(a: string, b: string)
    ensures Upper(a + b) == Upper(a) + Upper(b)
  {
  }

  /** `s.isupper()`: some cased character, and no lower-case one. */
  predicate IsUpperStr(s: string)
  {
    (exists i :: 0 <= i < |s| && IsUpperChar(s[i])) && forall i :: 0 <= i < |s| ==> !IsLowerChar(s[i])
  }

  /** `s.isdigit()`: non-empty and all digits. */
  predicate IsDigits(s: string)
  {
    |s| > 0 && forall i :: 0 <= i < |s| ==> IsDigit(s[i])
  }

  // ---------------------------------------------------------------- searching

  predicate StartsWith(s: string, p: string) { p <= s }

  predicate EndsWith(s: string, suffix: string)
  {
    |suffix| <= |s| && s[|s| - |suffix|..] == suffix
  }

  /** `t` occurs in `s` at index `j`. */
  predicate OccursAt(s: string, t: string, j: nat)
  {
    j + |t| <= |s| && s[j..j + |t|] == t
  }

  lemma OccursShift(s: string, t: string, j: nat)
    requires |s| > 0
    ensures OccursAt(s[1..], t, j) <==> OccursAt(s, t, j + 1)
  {
    if j + |t| <= |s[1..]| {
      assert s[1..][j..j + |t|] == s[j + 1..j + 1 + |t|];
    }
  }

  /** Index of the first occurrence of `t` in `s` (`s.find(t)`), if any. */
  function IndexOf(s: string, t: string): (r: Option<nat>)
    ensures r.Some? ==> OccursAt(s, t, r.value)
    ensures r.Some? ==> forall j: nat :: j < r.value ==> !OccursAt(s, t, j)
    ensures r.None? ==> forall j: nat :: !OccursAt(s, t, j)
    decreases |s|
  {
    if |s| < |t| then None
    else if t <= s then Some(0)
    else
      var r := IndexOf(s[1..], t);
      assert forall j: nat :: OccursAt(s[1..], t, j) <==> OccursAt(s, t, j + 1) by {
        forall j: nat ensures OccursAt(s[1..], t, j) <==> OccursAt(s, t, j + 1) { OccursShift(s, t, j); }
      }
      assert !OccursAt(s, t, 0);
      match r
      case None =>
        assert forall j: nat :: !OccursAt(s, t, j) by {
          forall j: nat ensures !OccursAt(s, t, j) { if j > 0 { assert !OccursAt(s[1..], t, j - 1); } }
        }
        None
      case Some(k) =>
        assert forall j: nat :: j < k + 1 ==> !OccursAt(s, t, j) by {
          forall j: nat | j < k + 1 ensures !OccursAt(s, t, j) { if j > 0 { assert !OccursAt(s[1..], t, j - 1); } }
        }
        Some(k + 1)
  }

  /** The first occurrence, once it is known where it is. */
  lemma IndexOfAt(s: string, t: string, k: nat)
    requires OccursAt(s, t, k)
    requires forall j: nat :: j < k ==> !OccursAt(s, t, j)
    ensures IndexOf(s, t) == Some(k)
  {
  }

  /** No occurrence of a single character. */
  lemma IndexOfNoChar(s: string, c: char)
    requires forall i :: 0 <= i < |s| ==> s[i] != c
    ensures IndexOf(s, [c]) == None
  {
    forall j: nat ensures !OccursAt(s, [c], j) {
      if j + 1 <= |s| {
        assert s[j..j + 1][0] == s[j];
      }
    }
  }

  /** `t in s` for strings: a substring test. */
  predicate Contains(s: string, t: string) { IndexOf(s, t).Some? }

  lemma ContainsAt(s: string, t: string, j: nat)
    requires OccursAt(s, t, j)
    ensures Contains(s, t)
  {
  }

  // ------------------------------------------------------ split, join, replace

  /** `s.split(sep)` for a non-empty separator. */
  function Split(s: string, sep: string): (r: seq<string>)
    requires sep != []
    ensures |r| >= 1
    decreases |s|
  {
    match IndexOf(s, sep)
    case None => [s]
    case Some(k) => [s[..k]] + Split(s[k + |sep|..], sep)
  }

  /** A string without the separator character splits into itself. */
  lemma SplitNoChar(s: string, c: char)
    requires forall i :: 0 <= i < |s| ==> s[i] != c
    ensures Split(s, [c]) == [s]
  {
    IndexOfNoChar(s, c);
  }

  /** Splitting at the first separator character, when it follows `a`. */
  lemma SplitAtChar(a: string, c: char, rest: string)
    requires forall i :: 0 <= i < |a| ==> a[i] != c
    ensures Split(a + [c] + rest, [c]) == [a] + Split(rest, [c])
  {
    var s := a + [c] + rest;
    assert IndexOf(s, [c]) == Some(|a|) by {
      assert s[|a|..|a| + 1] == [c];
      forall j: nat | j < |a| ensures !OccursAt(s, [c], j) {
        assert s[j..j + 1][0] == a[j];
      }
      IndexOfAt(s, [c], |a|);
    }
    assert s[..|a|] == a && s[|a| + 1..] == rest;
  }

  /** `s.split(sep, 1)`. */
  function SplitOnce(s: string, sep: string): (r: seq<string>)
    requires sep != []
    ensures 1 <= |r| <= 2
    ensures |r| == 1 <==> !Contains(s, sep)
    ensures |r| == 1 ==> r[0] == s
    ensures |r| == 2 ==> r[0] + sep + r[1] == s && !Contains(r[0], sep)
  {
    match IndexOf(s, sep)
    case None => [s]
    case Some(k) =>
      assert s == s[..k] + sep + s[k + |sep|..];
      NotContainedBefore(s, sep, k);
      [s[..k], s[k + |sep|..]]
  }

  lemma NotContainedBefore(s: string, t: string, k: nat)
    requires t != [] && k <= |s|
    requires forall j: nat :: j < k ==> !OccursAt(s, t, j)
    ensures !Contains(s[..k], t)
  {
    if Contains(s[..k], t) {
      var j := IndexOf(s[..k], t).value;
      assert s[..k][j..j + |t|] == s[j..j + |t|];
      assert OccursAt(s, t, j);
    }
  }

  /** `sep.join(parts)`. */
  function Join(parts: seq<string>, sep: string): (r: string)
  {
    if |parts| == 0 then ""
    else if |parts| == 1 then parts[0]
    else parts[0] + sep + Join(parts[1..], sep)
  }

  lemma JoinCons(a: string, tail: seq<string>, sep: string)
    requires tail != []
    ensures Join([a] + tail, sep) == a + sep + Join(tail, sep)
  {
    assert ([a] + tail)[1..] == tail;
  }

  /** Splitting and joining again with the same separator gives the input back. */
  lemma {:induction false} JoinSplit(s: string, sep: string)
    requires sep != []
    ensures Join(Split(s, sep), sep) == s
    decreases |s|
  {
    if IndexOf(s, sep).None? {
      assert Split(s, sep) == [s];
    } else {
      var k := IndexOf(s, sep).value;
      var rest := s[k + |sep|..];
      SplitStep(s, sep, k);
      JoinCons(s[..k], Split(rest, sep), sep);
      JoinSplit(rest, sep);
    }
  }

  /** Splitting at the first occurrence of the separator. */
  lemma SplitStep(s: string, sep: string, k: nat)
    requires sep != [] && IndexOf(s, sep) == Some(k)
    ensures k + |sep| <= |s|
    ensures Split(s, sep) == [s[..k]] + Split(s[k + |sep|..], sep)
    ensures s == s[..k] + sep + s[k + |sep|..]
  {
    SplitAround(s, sep, k);
  }

  /** An occurrence cuts a string into what comes before, itself, and what comes after. */
  lemma SplitAround(s: string, t: string, k: nat)
    requires OccursAt(s, t, k)
    ensures s == s[..k] + t + s[k + |t|..]
  {
  }

  /** `s.replace(old, new)`: every non-overlapping occurrence, left to right. */
  function Replace(s: string, pat: string, rep: string): string
    requires pat != []
  {
    Join(Split(s, pat), rep)
  }

  /** `s.replace(old, new, 1)`. */
  function ReplaceOnce(s: string, pat: string, rep: string): string
    requires pat != []
  {
    Join(SplitOnce(s, pat), rep)
  }

  /** `c` does not occur in `s`. */
  predicate Free(s: string, c: char)
  {
    forall k :: 0 <= k < |s| ==> s[k] != c
  }

  /** No part contains `c`. */
  predicate AllFree(parts: seq<string>, c: char)
  {
    forall i :: 0 <= i < |parts| ==> Free(parts[i], c)
  }

  lemma AllFreeCons(x: string, parts: seq<string>, c: char)
    requires Free(x, c) && AllFree(parts, c)
    ensures AllFree([x] + parts, c)
  {
    forall i | 0 <= i < |[x] + parts| ensures Free(([x] + parts)[i], c) {
      if i > 0 {
        assert ([x] + parts)[i] == parts[i - 1];
      }
    }
  }

  /** No part of a split on a character contains that character. */
  lemma {:induction false} SplitCharFree(s: string, c: char)
    ensures AllFree(Split(s, [c]), c)
    decreases |s|
  {
    match IndexOf(s, [c])
    case None =>
      forall k | 0 <= k < |s| ensures s[k] != c {
        assert !OccursAt(s, [c], k);
        assert s[k..k + 1][0] == s[k];
      }
    case Some(j) =>
      forall k | 0 <= k < j ensures s[..j][k] != c {
        assert !OccursAt(s, [c], k);
        assert s[k..k + 1][0] == s[k];
      }
      SplitCharFree(s[j + 1..], c);
      assert Split(s, [c]) == [s[..j]] + Split(s[j + 1..], [c]);
  }

  /** Joining parts free of `c` with a separator free of `c` gives a string free of `c`. */
  lemma {:induction false} JoinFree(parts: seq<string>, sep: string, c: char)
    requires Free(sep, c) && AllFree(parts, c)
    ensures Free(Join(parts, sep), c)
    decreases |parts|
  {
    if |parts| > 1 {
      JoinFree(parts[1..], sep, c);
      var head, rest := parts[0] + sep, Join(parts[1..], sep);
      assert Join(parts, sep) == head + rest;
      forall k | 0 <= k < |head| ensures head[k] != c {
        if k >= |parts[0]| {
          assert head[k] == sep[k - |parts[0]|];
        }
      }
      forall k | 0 <= k < |head + rest| ensures (head + rest)[k] != c {
        if k >= |head| {
          assert (head + rest)[k] == rest[k - |head|];
        }
      }
    }
  }

  /** `s.replace(c, "")` leaves no `c`. */
  lemma ReplaceRemoves(s: string, c: char)
    ensures Free(Replace(s, [c], ""), c)
  {
    SplitCharFree(s, c);
    JoinFree(Split(s, [c]), "", c);
  }

  /** `s.replace(c, r)` leaves no `c` when `r` has none. */
  lemma ReplaceByFree(s: string, c: char, r: string)
    requires Free(r, c)
    ensures Free(Replace(s, [c], r), c)
  {
    SplitCharFree(s, c);
    JoinFree(Split(s, [c]), r, c);
  }

  /** A replacement by itself changes nothing. */
  lemma ReplaceSame(s: string, t: string)
    requires t != []
    ensures Replace(s, t, t) == s
  {
    JoinSplit(s, t);
  }

  /** Replacing a string that does not occur changes nothing. */
  lemma ReplaceAbsent(s: string, t: string, r: string)
    requires t != [] && !Contains(s, t)
    ensures Replace(s, t, r) == s && ReplaceOnce(s, t, r) == s
  {
  }

  /** The first occurrence of a character that `a` lacks, right after `a`. */
  lemma IndexOfChar(a: string, c: char, rest: string)
    requires forall i :: 0 <= i < |a| ==> a[i] != c
    ensures IndexOf(a + [c] + rest, [c]) == Some(|a|)
  {
    var s := a + [c] + rest;
    assert s[|a|..|a| + 1] == [c];
    forall j: nat | j < |a| ensures !OccursAt(s, [c], j) {
      assert s[j..j + 1][0] == a[j];
    }
    IndexOfAt(s, [c], |a|);
  }

  /** `replace(c, r, 1)` at the first `c`. */
  lemma ReplaceOnceChar(a: string, c: char, rest: string, r: string)
    requires forall i :: 0 <= i < |a| ==> a[i] != c
    ensures ReplaceOnce(a + [c] + rest, [c], r) == a + r + rest
  {
    var s := a + [c] + rest;
    IndexOfChar(a, c, rest);
    assert s[..|a|] == a && s[|a| + 1..] == rest;
    assert SplitOnce(s, [c]) == [a, rest];
    JoinCons(a, [rest], r);
  }

  /** `replace(c, r)` of a character that occurs once. */
  lemma ReplaceChar(a: string, c: char, rest: string, r: string)
    requires forall i :: 0 <= i < |a| ==> a[i] != c
    requires forall i :: 0 <= i < |rest| ==> rest[i] != c
    ensures Replace(a + [c] + rest, [c], r) == a + r + rest
  {
    SplitAtChar(a, c, rest);
    SplitNoChar(rest, c);
    assert Split(a + [c] + rest, [c]) == [a, rest];
    JoinCons(a, [rest], r);
  }

  /** A string lacking the first character of `t` does not contain `t`. */
  lemma FirstCharAbsent(s: string, t: string)
    requires t != [] && forall i :: 0 <= i < |s| ==> s[i] != t[0]
    ensures !Contains(s, t)
  {
    forall j: nat | j + |t| <= |s| ensures !OccursAt(s, t, j) {
      assert s[j..j + |t|][0] == s[j];
    }
  }

  /** `replace(t, r)` of a leading `t` that does not occur again. */
  lemma ReplaceLeading(t: string, rest: string, r: string)
    requires t != [] && !Contains(rest, t)
    ensures Replace(t + rest, t, r) == r + rest
  {
    var s := t + rest;
    assert IndexOf(s, t) == Some(0);
    assert s[|t|..] == rest;
    assert Split(s, t) == [""] + Split(rest, t);
    assert Split(s, t) == ["", rest];
    JoinCons("", [rest], r);
  }

  // ---------------------------------------------------------------- whitespace

  function LStrip(s: string): (r: string)
    ensures |r| <= |s| && r == s[|s| - |r|..]
    ensures r != [] ==> !IsSpace(r[0])
  {
    if |s| > 0 && IsSpace(s[0]) then LStrip(s[1..]) else s
  }

  function RStrip(s: string): (r: string)
    ensures |r| <= |s| && r == s[..|r|]
    ensures r != [] ==> !IsSpace(r[|r| - 1])
  {
    if |s| > 0 && IsSpace(s[|s| - 1]) then RStrip(s[..|s| - 1]) else s
  }

  /** `s.strip()`. */
  function Strip(s: string): string { RStrip(LStrip(s)) }

  /** Length of the leading run of non-whitespace characters. */
  function TokenLen(s: string): (k: nat)
    ensures k <= |s|
    ensures forall i :: 0 <= i < k ==> !IsSpace(s[i])
    ensures k < |s| ==> IsSpace(s[k])
  {
    if |s| == 0 || IsSpace(s[0]) then 0 else 1 + TokenLen(s[1..])
  }

  /** `s.split()`: the maximal runs of non-whitespace. */
  function Words(s: string): seq<string>
    decreases |s|
  {
    var t := LStrip(s);
    if t == [] then []
    else
      var k := TokenLen(t);
      assert k > 0 by { assert !IsSpace(t[0]); }
      [t[..k]] + Words(t[k..])
  }

  /** ferenda's `util.normalize_space`: `" ".join(s.split())`. */
  function NormalizeSpace(s: string): string { Join(Words(s), " ") }

  /** A string without whitespace is one token. */
  lemma {:induction false} TokenLenWord(s: string)
    requires forall i :: 0 <= i < |s| ==> !IsSpace(s[i])
    ensures TokenLen(s) == |s|
    decreases |s|
  {
    if s != [] {
      assert !IsSpace(s[0]);
      TokenLenWord(s[1..]);
    }
  }

  /** The slices of a string free of `c` are free of `c`. */
  lemma FreeSlices(t: string, k: nat, c: char)
    requires k <= |t| && Free(t, c)
    ensures Free(t[..k], c) && Free(t[k..], c)
  {
    forall j | 0 <= j < k ensures t[..k][j] != c {
      assert t[..k][j] == t[j];
    }
    forall j | 0 <= j < |t| - k ensures t[k..][j] != c {
      assert t[k..][j] == t[k + j];
    }
  }

  /** The words of a string free of `c` are free of `c`. */
  lemma {:induction false} WordsFree(s: string, c: char)
    requires Free(s, c)
    ensures AllFree(Words(s), c)
    decreases |s|
  {
    var t := LStrip(s);
    FreeSlices(s, |s| - |t|, c);
    if t != [] {
      var k := TokenLen(t);
      FreeSlices(t, k, c);
      WordsFree(t[k..], c);
      AllFreeCons(t[..k], Words(t[k..]), c);
    }
  }

  /** `normalize_space` introduces no character but the space. */
  lemma NormalizeFree(s: string, c: char)
    requires Free(s, c) && c != ' '
    ensures Free(NormalizeSpace(s), c)
  {
    WordsFree(s, c);
    JoinFree(Words(s), " ", c);
  }

  /** A string without whitespace is one word. */
  lemma WordsWord(s: string)
    requires s != [] && forall i :: 0 <= i < |s| ==> !IsSpace(s[i])
    ensures Words(s) == [s]
  {
    assert !IsSpace(s[0]);
    assert LStrip(s) == s;
    TokenLenWord(s);
    assert s[..|s|] == s && s[|s|..] == [];
    assert LStrip([]) == [];
  }

  /** A single word is its own normal form. */
  lemma NormalizeWord(s: string)
    requires s != [] && forall i :: 0 <= i < |s| ==> !IsSpace(s[i])
    ensures NormalizeSpace(s) == s
  {
    WordsWord(s);
  }

  /** A word ends at the first whitespace. */
  lemma {:induction false} TokenLenCons(a: string, c: char, rest: string)
    requires IsSpace(c) && forall i :: 0 <= i < |a| ==> !IsSpace(a[i])
    ensures TokenLen(a + [c] + rest) == |a|
    decreases |a|
  {
    var s := a + [c] + rest;
    if a == [] {
      assert s[0] == c;
    } else {
      assert s[0] == a[0] && s[1..] == a[1..] + [c] + rest;
      TokenLenCons(a[1..], c, rest);
    }
  }

  /** A word, a space and a rest: the word is split off as the first word. */
  lemma WordsHead(a: string, b: string)
    requires a != [] && forall i :: 0 <= i < |a| ==> !IsSpace(a[i])
    ensures Words(a + " " + b) == [a] + Words(" " + b)
  {
    var s := a + " " + b;
    assert s != [] && !IsSpace(s[0]) by {
      assert s[0] == a[0];
    }
    WordsStep(s);
    assert TokenLen(s) == |a| by {
      TokenLenCons(a, ' ', b);
    }
    assert s[..|a|] == a && s[|a|..] == " " + b;
  }

  /** A string that starts with a word: that word, then the words of the rest. */
  lemma WordsStep(s: string)
    requires s != [] && !IsSpace(s[0])
    ensures Words(s) == [s[..TokenLen(s)]] + Words(s[TokenLen(s)..])
  {
    assert LStrip(s) == s;
  }

  /** A space and a word: that word. */
  lemma WordsSpaceWord(b: string)
    requires b != [] && forall i :: 0 <= i < |b| ==> !IsSpace(b[i])
    ensures Words(" " + b) == [b]
  {
    assert LStrip(" " + b) == LStrip(b) by {
      assert (" " + b)[1..] == b;
    }
    WordsSame(" " + b, b);
    WordsWord(b);
  }

  /** The words depend only on what follows the leading whitespace. */
  lemma WordsSame(x: string, y: string)
    requires LStrip(x) == LStrip(y)
    ensures Words(x) == Words(y)
  {
  }

  /** Two words with one space between them. */
  lemma WordsTwo(a: string, b: string)
    requires a != [] && forall i :: 0 <= i < |a| ==> !IsSpace(a[i])
    requires b != [] && forall i :: 0 <= i < |b| ==> !IsSpace(b[i])
    ensures Words(a + " " + b) == [a, b]
  {
    WordsHead(a, b);
    WordsSpaceWord(b);
    PairDisplay(a, b);
  }

  lemma PairDisplay<T>(a: T, b: T)
    ensures [a] + [b] == [a, b]
  {
  }

  /** Two words with one space between them are their own normal form. */
  lemma NormalizeTwoWords(a: string, b: string)
    requires a != [] && forall i :: 0 <= i < |a| ==> !IsSpace(a[i])
    requires b != [] && forall i :: 0 <= i < |b| ==> !IsSpace(b[i])
    ensures NormalizeSpace(a + " " + b) == a + " " + b
  {
    WordsTwo(a, b);
    JoinCons(a, [b], " ");
  }

  // ---------------------------------------------------------------- integers

  function DigitValue(c: char): nat requires IsDigit(c) { c as int - '0' as int }

  function DigitChar(d: nat): (c: char)
    requires d < 10
    ensures IsDigit(c) && DigitValue(c) == d
  {
    ('0' as int + d) as char
  }

  /** Length of the run of digits that starts `s`: a greedy `\d*`. */
  function DigitRun(s: string): (k: nat)
    ensures k <= |s|
    ensures forall i :: 0 <= i < k ==> IsDigit(s[i])
    ensures k < |s| ==> !IsDigit(s[k])
  {
    if |s| == 0 || !IsDigit(s[0]) then 0 else 1 + DigitRun(s[1..])
  }

  /** A run of digits followed by a non-digit. */
  lemma {:induction false} DigitRunAll(d: string, rest: string)
    requires forall i :: 0 <= i < |d| ==> IsDigit(d[i])
    requires rest == [] || !IsDigit(rest[0])
    ensures DigitRun(d + rest) == |d|
    decreases |d|
  {
    if d != [] {
      assert (d + rest)[1..] == d[1..] + rest;
      DigitRunAll(d[1..], rest);
    }
  }

  /** The value of a string of decimal digits. */
  function DigitsValue(s: string): nat
    requires forall i :: 0 <= i < |s| ==> IsDigit(s[i])
  {
    if s == [] then 0 else 10 * DigitsValue(s[..|s| - 1]) + DigitValue(s[|s| - 1])
  }

  /** `int(s)` for base 10: surrounding whitespace, an optional sign, digits. */
  function PyInt(s: string): Option<int>
  {
    var t := Strip(s);
    if |t| > 0 && (t[0] == '-' || t[0] == '+') then
      if IsDigits(t[1..]) then
        var v: int := DigitsValue(t[1..]);
        Some(if t[0] == '-' then -v else v)
      else None
    else if IsDigits(t) then Some(DigitsValue(t))
    else None
  }

  /** `str(n)` for a natural number. */
  function NatToString(n: nat): (r: string)
    ensures IsDigits(r)
    ensures DigitsValue(r) == n
    ensures r[0] == '0' ==> n == 0
  {
    if n < 10 then [DigitChar(n)]
    else
      var r := NatToString(n / 10) + [DigitChar(n % 10)];
      assert r[..|r| - 1] == NatToString(n / 10);
      r
  }

  /** `str(n)`. */
  function IntToString(n: int): string
  {
    if n < 0 then "-" + NatToString(-n) else NatToString(n)
  }

  lemma StripTrimmed(s: string)
    requires s != [] && !IsSpace(s[0]) && !IsSpace(s[|s| - 1])
    ensures Strip(s) == s
  {
    assert LStrip(s) == s;
    assert RStrip(s) == s;
  }

  lemma StripEmpty()
    ensures Strip("") == ""
  {
    assert LStrip("") == "";
    assert RStrip("") == "";
  }

  /** `int(str(n)) == n`. */
  lemma IntRoundTrip(n: int)
    ensures PyInt(IntToString(n)) == Some(n)
  {
    var s := IntToString(n);
    if n < 0 {
      var d := NatToString(-n);
      assert s == "-" + d;
      assert s[1..] == d;
      StripTrimmed(s);
    } else {
      StripTrimmed(s);
    }
  }

  // -------------------------------------------------------------- list folds

  /** The list built by appending `f(v)` for each `v` in turn. */
  function Flatten(vs: seq<string>, f: string -> seq<string>): seq<string>
  {
    if vs == [] then [] else Flatten(vs[..|vs| - 1], f) + f(vs[|vs| - 1])
  }

  lemma {:induction false} FlattenAppend(a: seq<string>, b: seq<string>, f: string -> seq<string>)
    ensures Flatten(a + b, f) == Flatten(a, f) + Flatten(b, f)
    decreases |b|
  {
    if b == [] {
      assert a + b == a;
    } else {
      var b', x := b[..|b| - 1], b[|b| - 1];
      assert (a + b)[..|a + b| - 1] == a + b' && (a + b)[|a + b| - 1] == x;
      calc {
        Flatten(a + b, f);
        Flatten(a + b', f) + f(x);
        { FlattenAppend(a, b', f); }
        (Flatten(a, f) + Flatten(b', f)) + f(x);
        Flatten(a, f) + (Flatten(b', f) + f(x));
      }
    }
  }

  lemma FlattenCons(x: string, vs: seq<string>, f: string -> seq<string>)
    ensures Flatten([x] + vs, f) == f(x) + Flatten(vs, f)
  {
    FlattenAppend([x], vs, f);
    assert [x][..0] == [];
  }

  /** The fold is non-empty exactly when some element contributes. */
  lemma {:induction false} FlattenNonEmpty(vs: seq<string>, f: string -> seq<string>)
    ensures Flatten(vs, f) != [] <==> exists i :: 0 <= i < |vs| && f(vs[i]) != []
  {
    if vs != [] {
      var init := vs[..|vs| - 1];
      FlattenNonEmpty(init, f);
      if exists i :: 0 <= i < |vs| && f(vs[i]) != [] {
        var i :| 0 <= i < |vs| && f(vs[i]) != [];
        if i < |init| { assert init[i] == vs[i]; }
      }
      if Flatten(init, f) != [] {
        var i :| 0 <= i < |init| && f(init[i]) != [];
        assert vs[i] == init[i];
      }
    }
  }

  lemma FlattenStep(vs: seq<string>, i: nat, f: string -> seq<string>)
    requires i < |vs|
    ensures Flatten(vs[..i + 1], f) == Flatten(vs[..i], f) + f(vs[i])
  {
    assert vs[..i + 1][..i] == vs[..i];
  }
}
