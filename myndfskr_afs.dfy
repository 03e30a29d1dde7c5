/**
 * `AFS.sanitize_text` of `myndfskr.py`: in the text of an AFS regulation
 * the identifier, "Utkom från trycket" and the publication date sit in the
 * right margin at the end of the opening lines. The method moves them out
 * of those lines and puts them, as one block, where the first blank line
 * after them was.
 */
module MyndAfs {
  import opened Wrappers
  import opened PyStr

  /** `margin` and `inmargin`. */
  datatype Margin = Margin(text: string, active: bool)

  /** The line that follows the identifier in the margin. */
  const Printed := "Utkom från trycket"

  /** `basefile.upper().replace("/", " ")`: "afs/2014:39" becomes "AFS 2014:39". */
  function ProbableId(basefile: string): string
  {
    Replace(Upper(basefile), "/", " ")
  }

  /** A string of `\w` characters, at least one. */
  predicate IsWord(s: string)
  {
    |s| > 0 && forall i :: 0 <= i < |s| ==> IsWordChar(s[i])
  }

  /** `s` is all of a match of `den \d+ \w+ \d{4}`. */
  predicate DateTail(s: string)
  {
    |s| >= 4 && s[..4] == "den " &&
    var parts := Split(s[4..], " ");
    |parts| == 3 && IsDigits(parts[0]) && IsWord(parts[1]) && |parts[2]| == 4 && IsDigits(parts[2])
  }

  /** A day, a month word and a four-digit year after "den " make a date. */
  lemma DateTailOf(d: string, w: string, y: string)
    requires IsDigits(d) && IsWord(w) && |y| == 4 && IsDigits(y)
    ensures DateTail("den " + (d + " " + w + " " + y))
  {
    var s := "den " + (d + " " + w + " " + y);
    assert s[..4] == "den " && s[4..] == d + [' '] + (w + [' '] + y);
    assert forall i :: 0 <= i < |d| ==> d[i] != ' ';
    assert forall i :: 0 <= i < |w| ==> w[i] != ' ';
    assert forall i :: 0 <= i < |y| ==> y[i] != ' ';
    SplitAtChar(d, ' ', w + [' '] + y);
    SplitAtChar(w, ' ', y);
    SplitNoChar(y, ' ');
    assert [d] + ([w] + [y]) == [d, w, y];
  }

  /** The start of the leftmost suffix of `line` from `i` on that `p` accepts. */
  function FirstSuffix(line: string, i: nat, p: string -> bool): (r: Option<nat>)
    requires i <= |line|
    ensures r.Some? ==> i <= r.value <= |line| && p(line[r.value..])
    ensures r.Some? ==> forall j :: i <= j < r.value ==> !p(line[j..])
    ensures r.None? ==> forall j :: i <= j <= |line| ==> !p(line[j..])
    decreases |line| - i
  {
    if p(line[i..]) then Some(i)
    else if i == |line| then None
    else FirstSuffix(line, i + 1, p)
  }

  /** `re.search("den \d+ \w+ \d{4}$", line)`: where the leftmost match starts. */
  function DateStart(line: string): Option<nat>
  {
    FirstSuffix(line, 0, DateTail)
  }

  /** The first occurrence of a suffix of the line. */
  function Before(line: string, t: string): (r: string)
    requires EndsWith(line, t)
    ensures r <= line
  {
    assert OccursAt(line, t, |line| - |t|);
    ContainsAt(line, t, |line| - |t|);
    line[..IndexOf(line, t).value]
  }

  /** The margin is entered on a line that ends with the identifier and has more, while the margin is empty. */
  predicate Enters(m: Margin, line: string, pid: string)
  {
    EndsWith(line, pid) && m.text == "" && |line| > |pid|
  }

  /** One pass of the loop: the new margin and the line to write (before its "\n"). */
  function StepLine(m: Margin, line: string, pid: string): (r: (Margin, string))
    ensures m.text <= r.0.text
  {
    if Enters(m, line, pid) then
      (Margin(m.text + pid + "\n", true), Before(line, pid))
    else if m.active && EndsWith(line, Printed) then
      (Margin(m.text + Printed + "\n", true), Before(line, Printed))
    else if m.active && DateStart(line).Some? then
      var i := DateStart(line).value;
      (Margin(m.text + line[i..] + "\n", true), line[..i])
    else if m.active && line == "" then
      (Margin(m.text, false), "\n" + m.text + "\n")
    else (m, line)
  }

  /** The loop over the lines from margin `m`: the final margin and the text written. */
  function Run(m: Margin, lines: seq<string>, pid: string): (Margin, string)
    decreases |lines|
  {
    if lines == [] then (m, "")
    else
      var step := StepLine(m, lines[0], pid);
      var rest := Run(step.0, lines[1..], pid);
      (rest.0, step.1 + "\n" + rest.1)
  }

  /** One more line at the end of the loop. */
  lemma {:induction false} RunSnoc(m: Margin, lines: seq<string>, line: string, pid: string)
    ensures Run(m, lines + [line], pid) ==
      (StepLine(Run(m, lines, pid).0, line, pid).0,
       Run(m, lines, pid).1 + (StepLine(Run(m, lines, pid).0, line, pid).1 + "\n"))
    decreases |lines|
  {
    if lines == [] {
      assert [] + [line] == [line];
      var last := StepLine(m, line, pid);
      assert Run(m, [line], pid) == (last.0, last.1 + "\n" + "");
      assert last.1 + "\n" + "" == "" + (last.1 + "\n");
    } else {
      var step := StepLine(m, lines[0], pid);
      assert (lines + [line])[1..] == lines[1..] + [line];
      RunSnoc(step.0, lines[1..], line, pid);
      var inner := Run(step.0, lines[1..], pid);
      assert Run(m, lines, pid) == (inner.0, step.1 + "\n" + inner.1);
      var last := StepLine(inner.0, line, pid);
      assert step.1 + "\n" + (inner.1 + (last.1 + "\n")) == step.1 + "\n" + inner.1 + (last.1 + "\n");
    }
  }

  /** `sanitize_text(text, basefile)`. */
  method SanitizeText(text: string, basefile: string) returns (newtext: string)
    ensures newtext == Run(Margin("", false), Split(text, "\n"), ProbableId(basefile)).1
  {
    var probableId := ProbableId(basefile);
    newtext := "";
    var margin := "";
    var inmargin := false;
    var lines := Split(text, "\n");
    for i := 0 to |lines|
      invariant Run(Margin("", false), lines[..i], probableId) == (Margin(margin, inmargin), newtext)
    {
      var line := lines[i];
      var newline: string;
      if EndsWith(line, probableId) && margin == "" && |line| > |probableId| {
        inmargin := true;
        margin := margin + probableId + "\n";
        newline := Before(line, probableId);
      } else if inmargin && EndsWith(line, Printed) {
        margin := margin + Printed + "\n";
        newline := Before(line, Printed);
      } else if inmargin && DateStart(line).Some? {
        var start := DateStart(line).value;
        margin := margin + line[start..] + "\n";
        newline := line[..start];
      } else if inmargin && line == "" {
        inmargin := false;
        newline := "\n" + margin + "\n";
      } else {
        newline := line;
      }
      RunSnoc(Margin("", false), lines[..i], line, probableId);
      assert lines[..i + 1] == lines[..i] + [line];
      newtext := newtext + (newline + "\n");
    }
    assert lines[..|lines|] == lines;
  }

  /** How many lines enter the margin. */
  function Entries(m: Margin, lines: seq<string>, pid: string): nat
    decreases |lines|
  {
    if lines == [] then 0
    else (if Enters(m, lines[0], pid) then 1 else 0) + Entries(StepLine(m, lines[0], pid).0, lines[1..], pid)
  }

  /**
   * The margin is entered at most once, and never once it holds something:
   * entry needs an empty margin and the margin never shrinks.
   */
  lemma {:induction false} EntersAtMostOnce(m: Margin, lines: seq<string>, pid: string)
    ensures Entries(m, lines, pid) <= if m.text == "" then 1 else 0
    decreases |lines|
  {
    if lines != [] {
      var next := StepLine(m, lines[0], pid).0;
      EntersAtMostOnce(next, lines[1..], pid);
      if Enters(m, lines[0], pid) {
        assert next.text == m.text + pid + "\n";
      }
    }
  }

  /** The empty line matches neither the identifier rule, nor "Utkom från trycket", nor a date. */
  lemma EmptyLine(pid: string)
    ensures DateStart("").None?
    ensures !EndsWith("", Printed) && !Enters(Margin("", false), "", pid)
  {
  }

  /** In the margin, the blank line ends it and is replaced by "\n" + margin + "\n". */
  lemma BlankEndsMargin(m: Margin, pid: string)
    requires m.active
    ensures StepLine(m, "", pid) == (Margin(m.text, false), "\n" + m.text + "\n")
  {
    EmptyLine(pid);
  }

  /** Each line followed by "\n". */
  function Unlines(lines: seq<string>): string
    decreases |lines|
  {
    if lines == [] then "" else lines[0] + "\n" + Unlines(lines[1..])
  }

  /** After the margin has been written out, every further line is kept as it is. */
  lemma {:induction false} AfterMargin(m: Margin, lines: seq<string>, pid: string)
    requires m.text != "" && !m.active
    ensures Run(m, lines, pid) == (m, Unlines(lines))
    decreases |lines|
  {
    if lines != [] {
      AfterMargin(m, lines[1..], pid);
    }
  }

  /** Without a margin line the text is kept as it is. */
  lemma {:induction false} NoMarginKept(lines: seq<string>, pid: string)
    requires forall i :: 0 <= i < |lines| ==> !(EndsWith(lines[i], pid) && |lines[i]| > |pid|)
    ensures Run(Margin("", false), lines, pid) == (Margin("", false), Unlines(lines))
    decreases |lines|
  {
    if lines != [] {
      NoMarginKept(lines[1..], pid);
    }
  }

  /** Writing each line with its "\n" is joining with "\n" and a final "\n". */
  lemma {:induction false} UnlinesJoin(lines: seq<string>)
    requires lines != []
    ensures Unlines(lines) == Join(lines, "\n") + "\n"
    decreases |lines|
  {
    if |lines| > 1 {
      UnlinesJoin(lines[1..]);
      JoinCons(lines[0], lines[1..], "\n");
    }
  }

  /** A text none of whose lines ends with the identifier comes back with one "\n" added. */
  lemma UntouchedText(text: string, basefile: string)
    requires forall i :: 0 <= i < |Split(text, "\n")| ==>
      !(EndsWith(Split(text, "\n")[i], ProbableId(basefile)) && |Split(text, "\n")[i]| > |ProbableId(basefile)|)
    ensures Run(Margin("", false), Split(text, "\n"), ProbableId(basefile)).1 == text + "\n"
  {
    NoMarginKept(Split(text, "\n"), ProbableId(basefile));
    UnlinesJoin(Split(text, "\n"));
    JoinSplit(text, "\n");
  }
}
