/**
 * The `recordlastbasefile` decorator of `myndfskr.py`: it passes on the
 * (basefile, link) pairs of a listing, stops at the first basefile that is
 * not newer than the configured `last_basefile`, and, when the listing is
 * exhausted, stores the newest trailing segment it has seen.
 */
module MyndWatermark {
  import opened Wrappers
  import opened PyStr

  /** The part of the configuration the decorator reads and writes. */
  class Config {
    /** `config.last_basefile`; `None` when it is not configured. */
    var lastBasefile: Option<string>
    /** `config.refresh`. */
    var refresh: bool
    /** What `LayeredConfig.write` has stored last; `None` before any write. */
    var saved: Option<string>

    constructor (lastBasefile: Option<string>, refresh: bool)
      ensures this.lastBasefile == lastBasefile && this.refresh == refresh && saved == None
    {
      this.lastBasefile := lastBasefile;
      this.refresh := refresh;
      saved := None;
    }
  }

  /** `fsnr`: the part after the last "/", or the whole basefile without one. */
  function Fsnr(s: string): string
  {
    if Contains(s, "/") then
      Last(Split(s, "/"))
    else s
  }

  /** The last element of a non-empty list. */
  function Last<T>(xs: seq<T>): T
    requires xs != []
  {
    xs[|xs| - 1]
  }

  /** The last part of a split is a suffix of the string. */
  lemma {:induction false} SplitLastSuffix(s: string, sep: string)
    requires sep != []
    ensures EndsWith(s, Last(Split(s, sep)))
    decreases |s|
  {
    match IndexOf(s, sep)
    case None =>
      assert Split(s, sep) == [s];
      assert s[|s| - |s|..] == s;
    case Some(k) =>
      var rest := s[k + |sep|..];
      assert Split(s, sep) == [s[..k]] + Split(rest, sep) && k + |sep| <= |s| by {
        SplitStep(s, sep, k);
      }
      SplitLastSuffix(rest, sep);
      LastOfCons(s[..k], Split(rest, sep));
      SuffixOfSuffix(s, rest, Last(Split(rest, sep)));
  }

  lemma LastOfCons<T>(x: T, xs: seq<T>)
    requires xs != []
    ensures Last([x] + xs) == Last(xs)
  {
  }

  /** A suffix of a suffix is a suffix. */
  lemma SuffixOfSuffix(s: string, rest: string, x: string)
    requires |rest| <= |s| && s[|s| - |rest|..] == rest && EndsWith(rest, x)
    ensures EndsWith(s, x)
  {
    assert s[|s| - |x|..] == rest[|rest| - |x|..];
  }

  /** The trailing segment is a suffix of the basefile without any "/". */
  lemma FsnrSuffix(s: string)
    ensures EndsWith(s, Fsnr(s)) && Free(Fsnr(s), '/')
  {
    if Contains(s, "/") {
      SplitLastSuffix(s, "/");
      SplitCharFree(s, '/');
    } else {
      assert s[|s| - |s|..] == s;
      forall i | 0 <= i < |s| ensures s[i] != '/' {
        if s[i] == '/' {
          assert OccursAt(s, "/", i) by {
            assert s[i..i + 1] == "/";
          }
          ContainsAt(s, "/", i);
        }
      }
    }
  }

  /**
   * The listing stops before this basefile: not refreshing, a
   * `last_basefile` configured, and the basefile's trailing segment not
   * newer. `le(a, b)` compares `split_numalpha(a) <= split_numalpha(b)`.
   */
  predicate StopsAt(basefile: string, last: Option<string>, refresh: bool, le: (string, string) -> bool)
  {
    !refresh && last.Some? && le(Fsnr(basefile), last.value)
  }

  /** How many pairs pass before the listing stops; all of them when it does not. */
  function Passed(pairs: seq<(string, string)>, last: Option<string>, refresh: bool, le: (string, string) -> bool): (p: nat)
    ensures p <= |pairs|
    ensures forall j :: 0 <= j < p ==> !StopsAt(pairs[j].0, last, refresh, le)
    ensures p < |pairs| ==> StopsAt(pairs[p].0, last, refresh, le)
    decreases |pairs|
  {
    if pairs == [] then 0
    else if StopsAt(pairs[0].0, last, refresh, le) then 0
    else 1 + Passed(pairs[1..], last, refresh, le)
  }

  /** The newer of the mark and the basefile's trailing segment; the mark on a tie. */
  function Bump(mark: string, basefile: string, le: (string, string) -> bool): string
  {
    if !le(Fsnr(basefile), mark) then Fsnr(basefile) else mark
  }

  /** `new_last_basefile` after the given pairs, from `mark`. */
  function Watermark(mark: string, pairs: seq<(string, string)>, le: (string, string) -> bool): string
  {
    if pairs == [] then mark
    else Bump(Watermark(mark, pairs[..|pairs| - 1], le), pairs[|pairs| - 1].0, le)
  }

  /** The starting mark: the configured value, else "0000:000". */
  function StartMark(last: Option<string>): string
  {
    match last
    case Some(l) => l
    case None => "0000:000"
  }

  /**
   * The decorated generator, consumed to the end: the pairs it yields, and
   * the configuration it leaves. The write happens only when the listing is
   * exhausted; an early stop leaves the configuration as it was.
   */
  method RecordLast(cfg: Config, pairs: seq<(string, string)>, le: (string, string) -> bool)
    returns (yielded: seq<(string, string)>)
    modifies cfg
    ensures yielded == pairs[..Passed(pairs, old(cfg.lastBasefile), old(cfg.refresh), le)]
    ensures |yielded| < |pairs| ==> unchanged(cfg)
    ensures |yielded| == |pairs| ==>
      var mark := Watermark(StartMark(old(cfg.lastBasefile)), pairs, le);
      cfg.lastBasefile == Some(mark) && cfg.saved == Some(mark) && cfg.refresh == old(cfg.refresh)
  {
    var last, refresh := cfg.lastBasefile, cfg.refresh;
    var newLast := StartMark(last);
    yielded := [];
    for i := 0 to |pairs|
      invariant yielded == pairs[..i]
      invariant forall j :: 0 <= j < i ==> !StopsAt(pairs[j].0, last, refresh, le)
      invariant newLast == Watermark(StartMark(last), pairs[..i], le)
    {
      var (basefile, link) := pairs[i];
      if !refresh && last.Some? {
        if le(Fsnr(basefile), last.value) {
          return;
        }
      }
      if !le(Fsnr(basefile), newLast) {
        newLast := Fsnr(basefile);
      }
      assert pairs[..i + 1][..i] == pairs[..i];
      yielded := yielded + [(basefile, link)];
    }
    assert pairs[..|pairs|] == pairs;
    cfg.lastBasefile := Some(newLast);
    cfg.saved := Some(newLast);
  }

  /** With `refresh` set, or nothing configured, every pair passes. */
  lemma PassAll(pairs: seq<(string, string)>, last: Option<string>, refresh: bool, le: (string, string) -> bool)
    requires refresh || last.None?
    ensures Passed(pairs, last, refresh, le) == |pairs|
  {
  }

  /** `le` is the `<=` of a total preorder. */
  ghost predicate TotalPreorder(le: (string, string) -> bool)
  {
    (forall a, b :: le(a, b) || le(b, a)) &&
    (forall a, b, c :: le(a, b) && le(b, c) ==> le(a, c))
  }

  /**
   * For a total preorder the mark is the maximum: at least the start and
   * every trailing segment seen, and equal to the start or one of them.
   */
  lemma {:induction false} WatermarkMax(mark: string, pairs: seq<(string, string)>, le: (string, string) -> bool)
    requires TotalPreorder(le)
    ensures le(mark, Watermark(mark, pairs, le))
    ensures forall j :: 0 <= j < |pairs| ==> le(Fsnr(pairs[j].0), Watermark(mark, pairs, le))
    ensures Watermark(mark, pairs, le) == mark || exists j :: 0 <= j < |pairs| && Watermark(mark, pairs, le) == Fsnr(pairs[j].0)
    decreases |pairs|
  {
    if pairs != [] {
      var init := pairs[..|pairs| - 1];
      var w := Watermark(mark, init, le);
      WatermarkMax(mark, init, le);
      var b := pairs[|pairs| - 1].0;
      assert le(w, Bump(w, b, le)) && le(Fsnr(b), Bump(w, b, le)) by {
        assert le(w, w) && le(Fsnr(b), Fsnr(b));
      }
      forall j | 0 <= j < |pairs| ensures le(Fsnr(pairs[j].0), Watermark(mark, pairs, le)) {
        if j < |pairs| - 1 {
          assert pairs[j] == init[j];
        }
      }
      if Watermark(mark, pairs, le) != mark {
        if Watermark(mark, pairs, le) != Fsnr(b) {
          var j :| 0 <= j < |init| && w == Fsnr(init[j].0);
          assert init[j] == pairs[j];
        }
      }
    }
  }
}
