/**
 * Unpacking a zip archive of court reports (`DV.process_zipfile`): each
 * member name is matched against one of three file-name patterns, turned
 * into a basefile, and the member is written, replaced or removed in the
 * downloaded area, with per-action counters and a global download cap.
 */
module DvZip {
  import opened Wrappers
  import opened PyStr

  // ------------------------------------------------------------ file names

  /** The groups of a matched member name. */
  datatype NameGroups = NameGroups(court: string, malnr: string, optReferatnr: string, referatnr: string, suffix: string)

  /** Which of the three patterns a name is matched with: "BYTUT" is looked for before "TABORT". */
  datatype Pattern = PlainPattern | BytutPattern | TabortPattern

  function PatternFor(name: string): Pattern
  {
    if Contains(name, "BYTUT") then BytutPattern
    else if Contains(name, "TABORT") then TabortPattern
    else PlainPattern
  }

  /** Length of the run of digits that starts `s` (the regex `\d*`, greedy). */
  function DigitRun(s: string): (n: nat)
    ensures n <= |s| && (n < |s| ==> !IsDigit(s[n]))
    ensures forall i :: 0 <= i < n ==> IsDigit(s[i])
  {
    if |s| > 0 && IsDigit(s[0]) then 1 + DigitRun(s[1..]) else 0
  }

  /** The digits that start `s`. */
  function LeadingDigits(s: string): (r: string)
    ensures |r| == DigitRun(s) && r == s[..|r|]
    ensures forall i :: 0 <= i < |r| ==> IsDigit(r[i])
  {
    s[..DigitRun(s)]
  }

  /** Length of the run that starts `s` with no "_" and no "." (the regex `[^_\.]*`, greedy). */
  function MalnrRun(s: string): (n: nat)
    ensures n <= |s| && (n < |s| ==> s[n] == '_' || s[n] == '.')
    ensures forall i :: 0 <= i < n ==> s[i] != '_' && s[i] != '.'
  {
    if |s| > 0 && s[0] != '_' && s[0] != '.' then 1 + MalnrRun(s[1..]) else 0
  }

  /** The regex `(\.docx?)` at the start of `s`. */
  function DocSuffix(s: string): (r: Option<string>)
    ensures r.Some? ==> (r.value == ".doc" || r.value == ".docx") && StartsWith(s, r.value)
  {
    if StartsWith(s, ".docx") then Some(".docx")
    else if StartsWith(s, ".doc") then Some(".doc")
    else None
  }

  /** `([^_]*)_([^_\.]*)`: the court before the first "_", then the case number; and what follows. */
  function CourtAndMalnr(name: string): (r: Option<(string, string, string)>)
    ensures r.Some? ==> name == r.value.0 + "_" + r.value.1 + r.value.2
    ensures r.Some? ==> !Contains(r.value.0, "_")
    ensures r.Some? ==> (forall i :: 0 <= i < |r.value.0| ==> r.value.0[i] != '_') &&
                        (forall i :: 0 <= i < |r.value.1| ==> r.value.1[i] != '_' && r.value.1[i] != '.')
    ensures r.Some? && (forall i :: 0 <= i < |name| ==> name[i] != '/') ==>
              (forall i :: 0 <= i < |r.value.0| ==> r.value.0[i] != '/') &&
              (forall i :: 0 <= i < |r.value.1| ==> r.value.1[i] != '/')
  {
    match IndexOf(name, "_")
    case None => None
    case Some(i) =>
      var rest := name[i + 1..];
      var k := MalnrRun(rest);
      assert name == name[..i] + "_" + rest[..k] + rest[k..];
      NotContainedBefore(name, "_", i);
      forall j | 0 <= j < i ensures name[j] != '_' {
        assert !OccursAt(name, "_", j) && name[j..j + 1][0] == name[j];
      }
      Some((name[..i], rest[..k], rest[k..]))
  }

  /** `_?(\d*)(\.docx?)` at the start of `u`: the referat number and the suffix. */
  function NumberAndSuffix(u: string): (r: Option<(string, string)>)
    ensures r.Some? ==> r.value.1 == ".doc" || r.value.1 == ".docx"
    ensures r.Some? ==> forall i :: 0 <= i < |r.value.0| ==> IsDigit(r.value.0[i])
  {
    if StartsWith(u, "_") then
      var nr := LeadingDigits(u[1..]);
      match DocSuffix(u[1 + |nr|..])
      case Some(suffix) => Some((nr, suffix))
      case None => None
    else
      match DocSuffix(u)
      case Some(suffix) => Some(("", suffix))
      case None => None
  }

  /** `re.match(r'([^_]*)_([^_\.]*)()_?(\d*)(\.docx?)', name)`. */
  function MatchPlain(name: string): (r: Option<NameGroups>)
    ensures r.Some? ==> r.value.optReferatnr == "" && (r.value.suffix == ".doc" || r.value.suffix == ".docx")
    ensures r.Some? ==> WellFormed(r.value)
  {
    match CourtAndMalnr(name)
    case None => None
    case Some((court, malnr, tail)) =>
      match NumberAndSuffix(tail)
      case Some((nr, suffix)) => Some(NameGroups(court, malnr, "", nr, suffix))
      case None => None
  }

  /** `\d+-\d+-\d+` at the start of `s`: the length of the date, if there is one. */
  function DateRun(s: string): (n: Option<nat>)
    ensures n.Some? ==> n.value <= |s|
  {
    var a := DigitRun(s);
    if a == 0 || a == |s| || s[a] != '-' then None
    else
      var b := DigitRun(s[a + 1..]);
      if b == 0 || a + 1 + b == |s| || s[a + 1 + b] != '-' then None
      else
        var c := DigitRun(s[a + 2 + b..]);
        if c == 0 then None else Some(a + 2 + b + c)
  }

  /**
   * `_?(\d*)` followed by `marker` at the start of `tail`: the digits before
   * the marker and where the marker starts. The regex first takes "_" and
   * the digits; failing that, nothing.
   */
  function BeforeMarker(tail: string, marker: string): (r: Option<(string, nat)>)
    ensures r.Some? ==> r.value.1 + |marker| <= |tail| && StartsWith(tail[r.value.1..], marker)
    ensures r.Some? ==> forall i :: 0 <= i < |r.value.0| ==> IsDigit(r.value.0[i])
  {
    var before := if StartsWith(tail, "_") then LeadingDigits(tail[1..]) else "";
    if StartsWith(tail, "_") && StartsWith(tail[1 + |before|..], marker) then Some((before, 1 + |before|))
    else if StartsWith(tail, marker) then Some(("", 0))
    else None
  }

  /**
   * `re.match(r'([^_]*)_([^_\.]*)_?(\d*)_WORD_\d+-\d+-\d+_?(\d*)(\.docx?)', name)`
   * for WORD "BYTUT" or "TABORT": the number before the word is the
   * pre-replacement referat number, the one after the date the referat number.
   */
  function MatchDated(name: string, word: string): (r: Option<NameGroups>)
    ensures r.Some? ==> r.value.suffix == ".doc" || r.value.suffix == ".docx"
    ensures r.Some? ==> WellFormed(r.value)
  {
    match CourtAndMalnr(name)
    case None => None
    case Some((court, malnr, tail)) =>
      var marker := "_" + word + "_";
      match BeforeMarker(tail, marker)
      case None => None
      case Some((opt, markerAt)) =>
        var afterWord := tail[markerAt + |marker|..];
        match DateRun(afterWord)
        case None => None
        case Some(n) =>
          match NumberAndSuffix(afterWord[n..])
          case Some((nr, suffix)) => Some(NameGroups(court, malnr, opt, nr, suffix))
          case None => None
  }

  function MatchName(name: string): (r: Option<NameGroups>)
    ensures r.Some? ==> r.value.suffix == ".doc" || r.value.suffix == ".docx"
    ensures r.Some? ==> WellFormed(r.value)
    ensures r.Some? && (forall i :: 0 <= i < |name| ==> name[i] != '/') ==> NoSlash(r.value)
  {
    match PatternFor(name)
    case PlainPattern => MatchPlain(name)
    case BytutPattern => MatchDated(name, "BYTUT")
    case TabortPattern => MatchDated(name, "TABORT")
  }

  predicate NoSlash(g: NameGroups)
  {
    (forall i :: 0 <= i < |g.court| ==> g.court[i] != '/') && forall i :: 0 <= i < |g.malnr| ==> g.malnr[i] != '/'
  }

  /** The referat number a basefile carries: the one after the date, else the one before the word. */
  function Number(g: NameGroups): string
  {
    if g.referatnr != "" then g.referatnr else g.optReferatnr
  }

  /** The basefile before stripping: court/malnr, with the referat number (or else the older one) after "_". */
  function RawBasefile(g: NameGroups): string
  {
    if g.referatnr != "" then g.court + "/" + (g.malnr + "_" + g.referatnr)
    else if g.optReferatnr != "" then g.court + "/" + (g.malnr + "_" + g.optReferatnr)
    else g.court + "/" + g.malnr
  }

  function Basefile(g: NameGroups): string
  {
    Strip(RawBasefile(g))
  }

  /** `os.path.split(name)[1]`: what follows the last "/". */
  function BaseName(name: string): (r: string)
    ensures forall i :: 0 <= i < |r| ==> r[i] != '/'
    ensures EndsWith(name, r)
  {
    if name == [] then []
    else if name[|name| - 1] == '/' then []
    else
      var r := BaseName(name[..|name| - 1]);
      assert name[..|name| - 1][|name[..|name| - 1]| - |r|..] == r;
      r + [name[|name| - 1]]
  }

  /** The group facts the three patterns guarantee: no "_" in the court, none of "_" or "." in the case number, digit-only numbers. */
  predicate WellFormed(g: NameGroups)
  {
    (forall i :: 0 <= i < |g.court| ==> g.court[i] != '_') &&
    (forall i :: 0 <= i < |g.malnr| ==> g.malnr[i] != '_' && g.malnr[i] != '.') &&
    (forall i :: 0 <= i < |g.optReferatnr| ==> IsDigit(g.optReferatnr[i])) &&
    (forall i :: 0 <= i < |g.referatnr| ==> IsDigit(g.referatnr[i]))
  }

  // ------------------------------------------------------------ unpacking

  /** A member of the archive: its stored name and its bytes. */
  datatype Member = Member(name: string, data: string)

  /** Where a member is unpacked: the downloaded file of a basefile, by suffix. */
  datatype FileKey = FileKey(basefile: string, suffix: string)

  datatype Counts = Counts(removed: nat, replaced: nat, created: nat, untouched: nat)

  /** How unpacking one archive ends. */
  datatype Outcome =
    | Done(counts: Counts)
    | MaxDownloadsReached
    | NoNotices(name: string)   // the assertion that a notice file yields some notice

  /** The state after one member: go on with new files, count and counters, or stop. */
  datatype Step =
    | Next(files: map<FileKey, string>, count: nat, counts: Counts)
    | Stop(files: map<FileKey, string>, count: nat, outcome: Outcome)

  /** What a member calls for, decided from its name alone. */
  datatype Action =
    | Notices(made: nat, kept: nat)   // a notice file and what the notice extractor reports
    | Unmatched                       // a name no pattern matches: only a warning
    | Remove(key: FileKey)            // "TABORT"
    | Replace(key: FileKey)           // "BYTUT"
    | Unpack(key: FileKey)            // a plain name

  /**
   * A notice file ("_notis_" in its name) is handed to the notice extractor.
   * Any other member is matched on its base name, with the pattern chosen by
   * "BYTUT" before "TABORT"; the action is then chosen by "TABORT" before
   * "BYTUT".
   */
  function ActionFor(m: Member, notis: string -> (nat, nat)): Action
  {
    if Contains(m.name, "_notis_") then Notices(notis(m.name).0, notis(m.name).1)
    else
      var name := BaseName(m.name);
      match MatchName(name)
      case None => Unmatched
      case Some(g) =>
        var key := FileKey(Basefile(g), g.suffix);
        if Contains(name, "TABORT") then Remove(key)
        else if Contains(name, "BYTUT") then Replace(key)
        else Unpack(key)
  }

  /**
   * Carrying out an action: a removal deletes the file, a replacement writes
   * it, a plain member is skipped if its file exists and written otherwise.
   * Every write raises the download count; every matched member that was not
   * skipped ends with the cap check (a cap of 0 means none). A notice file
   * that yields no notice fails the extractor's assertion.
   */
  function Apply(act: Action, data: string, files: map<FileKey, string>, count: nat, counts: Counts,
                 downloadmax: nat, name: string): Step
  {
    match act
    case Notices(made, kept) =>
      if made + kept == 0 then Stop(files, count, NoNotices(name))
      else Next(files, count, counts.(created := counts.created + made, untouched := counts.untouched + kept))
    case Unmatched => Next(files, count, counts)
    case Remove(key) => Checked(files - {key}, count, counts.(removed := counts.removed + 1), downloadmax)
    case Replace(key) => Checked(files[key := data], count + 1, counts.(replaced := counts.replaced + 1), downloadmax)
    case Unpack(key) =>
      if key in files then Next(files, count, counts.(untouched := counts.untouched + 1))
      else Checked(files[key := data], count + 1, counts.(created := counts.created + 1), downloadmax)
  }

  function ZipStep(m: Member, files: map<FileKey, string>, count: nat, counts: Counts, downloadmax: nat,
                   notis: string -> (nat, nat)): Step
  {
    Apply(ActionFor(m, notis), m.data, files, count, counts, downloadmax, m.name)
  }

  /** The cap check that ends each matched member. */
  function Checked(files: map<FileKey, string>, count: nat, counts: Counts, downloadmax: nat): Step
  {
    if downloadmax != 0 && count >= downloadmax then Stop(files, count, MaxDownloadsReached)
    else Next(files, count, counts)
  }

  /** The members from here on, given the state so far. */
  function ZipFrom(ms: seq<Member>, files: map<FileKey, string>, count: nat, counts: Counts, downloadmax: nat,
                   notis: string -> (nat, nat)): (map<FileKey, string>, nat, Outcome)
    decreases |ms|
  {
    if ms == [] then (files, count, Done(counts))
    else
      match ZipStep(ms[0], files, count, counts, downloadmax, notis)
      case Stop(f, c, o) => (f, c, o)
      case Next(f, c, cs) => ZipFrom(ms[1..], f, c, cs, downloadmax, notis)
  }

  const NoCounts := Counts(0, 0, 0, 0)

  /** The downloaded area of the court-report repository and its download count. */
  class ZipUnpacker {
    var downloaded: map<FileKey, string>
    var downloadcount: nat
    const downloadmax: nat

    constructor (downloaded: map<FileKey, string>, downloadmax: nat)
      ensures this.downloaded == downloaded && downloadcount == 0 && this.downloadmax == downloadmax
    {
      this.downloaded := downloaded;
      this.downloadcount := 0;
      this.downloadmax := downloadmax;
    }

    /** `process_zipfile` over the members of one archive, in their stored order. */
    method ProcessZipfile(members: seq<Member>, notis: string -> (nat, nat)) returns (outcome: Outcome)
      modifies this
      ensures (downloaded, downloadcount, outcome) ==
              ZipFrom(members, old(downloaded), old(downloadcount), NoCounts, downloadmax, notis)
    {
      var counts := NoCounts;
      var i := 0;
      while i < |members|
        invariant 0 <= i <= |members|
        invariant ZipFrom(members[i..], downloaded, downloadcount, counts, downloadmax, notis) ==
                  ZipFrom(members, old(downloaded), old(downloadcount), NoCounts, downloadmax, notis)
      {
        assert members[i..][1..] == members[i + 1..];
        var step := ZipStep(members[i], downloaded, downloadcount, counts, downloadmax, notis);
        match step {
          case Stop(f, c, o) =>
            downloaded, downloadcount := f, c;
            return o;
          case Next(f, c, cs) =>
            downloaded, downloadcount, counts := f, c, cs;
        }
        i := i + 1;
      }
      outcome := Done(counts);
    }
  }

  // ------------------------------------------------------------ properties

  /** Notices the extractor reports as created, over the notice files among `ms`. */
  function NoticesCreated(ms: seq<Member>, notis: string -> (nat, nat)): nat
  {
    if ms == [] then 0
    else (if Contains(ms[0].name, "_notis_") then notis(ms[0].name).0 else 0) + NoticesCreated(ms[1..], notis)
  }

  /**
   * A completed archive raised the download count by exactly the members it
   * wrote: the replaced ones and the created ones that were not notices.
   */
  lemma {:induction false} CountIsWrites(ms: seq<Member>, files: map<FileKey, string>, count: nat, counts: Counts,
                                         downloadmax: nat, notis: string -> (nat, nat))
    ensures var (_, c, o) := ZipFrom(ms, files, count, counts, downloadmax, notis);
      o.Done? ==>
        o.counts.created >= counts.created && o.counts.replaced >= counts.replaced &&
        c + NoticesCreated(ms, notis) == count + (o.counts.replaced - counts.replaced) + (o.counts.created - counts.created)
    decreases |ms|
  {
    if ms != [] {
      match ZipStep(ms[0], files, count, counts, downloadmax, notis)
      case Stop(f, c, o) =>
        StepWrites(ms[0], files, count, counts, downloadmax, notis);
      case Next(f, c, cs) =>
        StepWrites(ms[0], files, count, counts, downloadmax, notis);
        CountIsWrites(ms[1..], f, c, cs, downloadmax, notis);
    }
  }

  /**
   * The cap: starting below it, the count never passes it; the archive stops
   * exactly when a write brings the count to the cap.
   */
  lemma {:induction false} CapRespected(ms: seq<Member>, files: map<FileKey, string>, count: nat, counts: Counts,
                                        downloadmax: nat, notis: string -> (nat, nat))
    requires downloadmax != 0 && count < downloadmax
    ensures var (_, c, o) := ZipFrom(ms, files, count, counts, downloadmax, notis);
      (o == MaxDownloadsReached ==> c == downloadmax) && (o != MaxDownloadsReached ==> c < downloadmax)
    decreases |ms|
  {
    if ms != [] {
      match ZipStep(ms[0], files, count, counts, downloadmax, notis)
      case Stop(f, c, o) =>
        StepCap(ms[0], files, count, counts, downloadmax, notis);
      case Next(f, c, cs) =>
        StepCap(ms[0], files, count, counts, downloadmax, notis);
        CapRespected(ms[1..], f, c, cs, downloadmax, notis);
    }
  }

  /** The file a matched, non-notice member is unpacked to. */
  function KeyOf(m: Member, notis: string -> (nat, nat)): Option<FileKey>
  {
    match ActionFor(m, notis)
    case Remove(key) => Some(key)
    case Replace(key) => Some(key)
    case Unpack(key) => Some(key)
    case _ => None
  }

  predicate Targets(ms: seq<Member>, notis: string -> (nat, nat), k: FileKey)
  {
    exists i :: 0 <= i < |ms| && KeyOf(ms[i], notis) == Some(k)
  }

  /** Nothing but the files of matched members changes. */
  lemma {:induction false} OnlyTargetsChange(ms: seq<Member>, files: map<FileKey, string>, count: nat, counts: Counts,
                                             downloadmax: nat, notis: string -> (nat, nat), k: FileKey)
    requires !Targets(ms, notis, k)
    ensures var (f, _, _) := ZipFrom(ms, files, count, counts, downloadmax, notis);
      (k in f <==> k in files) && (k in files ==> f[k] == files[k])
    decreases |ms|
  {
    if ms != [] {
      assert KeyOf(ms[0], notis) != Some(k);
      StepFrame(ms[0], files, count, counts, downloadmax, notis, k);
      match ZipStep(ms[0], files, count, counts, downloadmax, notis)
      case Stop(f, c, o) =>
      case Next(f, c, cs) =>
        assert !Targets(ms[1..], notis, k) by {
          forall i | 0 <= i < |ms[1..]| ensures KeyOf(ms[1..][i], notis) != Some(k) {
            assert ms[1..][i] == ms[i + 1];
          }
        }
        OnlyTargetsChange(ms[1..], f, c, cs, downloadmax, notis, k);
    }
  }

  lemma StepWrites(m: Member, files: map<FileKey, string>, count: nat, counts: Counts, downloadmax: nat,
                   notis: string -> (nat, nat))
    ensures var st := ZipStep(m, files, count, counts, downloadmax, notis);
      (st.Stop? ==> !st.outcome.Done?) &&
      (st.Next? ==>
        st.counts.created >= counts.created && st.counts.replaced >= counts.replaced &&
        st.count + (if Contains(m.name, "_notis_") then notis(m.name).0 else 0) ==
          count + (st.counts.replaced - counts.replaced) + (st.counts.created - counts.created))
  {
    var act := ActionFor(m, notis);
    assert act.Notices? <==> Contains(m.name, "_notis_");
    assert act.Notices? ==> act.made == notis(m.name).0;
    ApplyWrites(act, m.data, files, count, counts, downloadmax, m.name);
  }

  lemma ApplyWrites(act: Action, data: string, files: map<FileKey, string>, count: nat, counts: Counts,
                    downloadmax: nat, name: string)
    ensures var st := Apply(act, data, files, count, counts, downloadmax, name);
      (st.Stop? ==> !st.outcome.Done?) &&
      (st.Next? ==>
        st.counts.created >= counts.created && st.counts.replaced >= counts.replaced &&
        st.count + (if act.Notices? then act.made else 0) ==
          count + (st.counts.replaced - counts.replaced) + (st.counts.created - counts.created))
  {
  }

  lemma StepCap(m: Member, files: map<FileKey, string>, count: nat, counts: Counts, downloadmax: nat,
                notis: string -> (nat, nat))
    requires downloadmax != 0 && count < downloadmax
    ensures var st := ZipStep(m, files, count, counts, downloadmax, notis);
      (st.Next? ==> st.count < downloadmax) &&
      (st.Stop? && st.outcome == MaxDownloadsReached ==> st.count == downloadmax) &&
      (st.Stop? && st.outcome != MaxDownloadsReached ==> st.count < downloadmax)
  {
    ApplyCap(ActionFor(m, notis), m.data, files, count, counts, downloadmax, m.name);
  }

  lemma ApplyCap(act: Action, data: string, files: map<FileKey, string>, count: nat, counts: Counts,
                 downloadmax: nat, name: string)
    requires downloadmax != 0 && count < downloadmax
    ensures var st := Apply(act, data, files, count, counts, downloadmax, name);
      (st.Next? ==> st.count < downloadmax) &&
      (st.Stop? && st.outcome == MaxDownloadsReached ==> st.count == downloadmax) &&
      (st.Stop? && st.outcome != MaxDownloadsReached ==> st.count < downloadmax)
  {
  }

  lemma StepFrame(m: Member, files: map<FileKey, string>, count: nat, counts: Counts, downloadmax: nat,
                  notis: string -> (nat, nat), k: FileKey)
    requires KeyOf(m, notis) != Some(k)
    ensures var f := ZipStep(m, files, count, counts, downloadmax, notis).files;
      (k in f <==> k in files) && (k in files ==> f[k] == files[k])
  {
    ApplyFrame(ActionFor(m, notis), m.data, files, count, counts, downloadmax, m.name, k);
  }

  lemma ApplyFrame(act: Action, data: string, files: map<FileKey, string>, count: nat, counts: Counts,
                   downloadmax: nat, name: string, k: FileKey)
    requires !(act.Remove? || act.Replace? || act.Unpack?) || act.key != k
    ensures var f := Apply(act, data, files, count, counts, downloadmax, name).files;
      (k in f <==> k in files) && (k in files ==> f[k] == files[k])
  {
  }

  /**
   * The basefile gives back what it was made from: split at "/" it is the
   * court and the rest, and the rest split at "_" is the case number and,
   * when there is one, the referat number.
   */
  lemma BasefileDecodes(g: NameGroups)
    requires WellFormed(g) && NoSlash(g)
    ensures var rest := if Number(g) == "" then g.malnr else g.malnr + "_" + Number(g);
      Split(RawBasefile(g), "/") == [g.court, rest] &&
      Split(rest, "_") == (if Number(g) == "" then [g.malnr] else [g.malnr, Number(g)])
  {
    if Number(g) == "" {
      DecodeBare(g.court, g.malnr);
    } else {
      DecodeNumbered(g.court, g.malnr, Number(g));
    }
  }

  lemma DecodeBare(court: string, malnr: string)
    requires forall i :: 0 <= i < |court| ==> court[i] != '/'
    requires forall i :: 0 <= i < |malnr| ==> malnr[i] != '/' && malnr[i] != '_'
    ensures Split(court + "/" + malnr, "/") == [court, malnr] && Split(malnr, "_") == [malnr]
  {
    SplitAtChar(court, '/', malnr);
    SplitNoChar(malnr, '/');
    SplitNoChar(malnr, '_');
  }

  lemma DecodeNumbered(court: string, malnr: string, nr: string)
    requires forall i :: 0 <= i < |court| ==> court[i] != '/'
    requires forall i :: 0 <= i < |malnr| ==> malnr[i] != '/' && malnr[i] != '_'
    requires forall i :: 0 <= i < |nr| ==> IsDigit(nr[i])
    ensures Split(court + "/" + (malnr + "_" + nr), "/") == [court, malnr + "_" + nr]
    ensures Split(malnr + "_" + nr, "_") == [malnr, nr]
  {
    NoSlashRest(malnr, nr);
    SplitCourt(court, malnr + "_" + nr);
    SplitNumber(malnr, nr);
  }

  lemma NoSlashRest(malnr: string, nr: string)
    requires forall i :: 0 <= i < |malnr| ==> malnr[i] != '/'
    requires forall i :: 0 <= i < |nr| ==> IsDigit(nr[i])
    ensures forall i :: 0 <= i < |malnr + "_" + nr| ==> (malnr + "_" + nr)[i] != '/'
  {
    var rest := malnr + "_" + nr;
    forall i | 0 <= i < |rest| ensures rest[i] != '/' {
      if i > |malnr| { assert rest[i] == nr[i - |malnr| - 1]; }
    }
  }

  lemma SplitCourt(court: string, rest: string)
    requires forall i :: 0 <= i < |court| ==> court[i] != '/'
    requires forall i :: 0 <= i < |rest| ==> rest[i] != '/'
    ensures Split(court + "/" + rest, "/") == [court, rest]
  {
    SplitAtChar(court, '/', rest);
    SplitNoChar(rest, '/');
  }

  lemma SplitNumber(malnr: string, nr: string)
    requires forall i :: 0 <= i < |malnr| ==> malnr[i] != '_'
    requires forall i :: 0 <= i < |nr| ==> IsDigit(nr[i])
    ensures Split(malnr + "_" + nr, "_") == [malnr, nr]
  {
    SplitAtChar(malnr, '_', nr);
    SplitNoChar(nr, '_');
  }
}
