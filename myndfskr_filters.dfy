/**
 * Three small loops of `myndfskr.py`: the control-byte filter of
 * `textreader_from_basefile_pdftotext`, the filter that drops an
 * authorisation URI when a longer one in the same list starts with it
 * (`polish_metadata`), and NFS's search for the consolidation row of a
 * regulations table (`_consolidation_row_index`).
 */
module MyndFilters {
  import opened Wrappers
  import opened PyStr

  // ------------------------------------------------------------ control bytes

  newtype byte = b: int | 0 <= b < 256

  /** Bytes from 0x20 up, and TAB, LF, FF and CR, are kept. */
  predicate Allowed(b: byte)
  {
    b >= 0x20 || b == 0x09 || b == 0x0A || b == 0x0C || b == 0x0D
  }

  /** The kept bytes of `buf`, in order. */
  function KeptBytes(buf: seq<byte>): seq<byte>
  {
    if buf == [] then []
    else KeptBytes(buf[..|buf| - 1]) + (if Allowed(buf[|buf| - 1]) then [buf[|buf| - 1]] else [])
  }

  /** The indices below `n` of the dropped bytes, ascending. */
  function DroppedBelow(buf: seq<byte>, n: nat): seq<nat>
    requires n <= |buf|
  {
    if n == 0 then []
    else DroppedBelow(buf, n - 1) + (if Allowed(buf[n - 1]) then [] else [n - 1])
  }

  /**
   * The loop over `enumerate(bytebuffer)`: kept bytes are written to the
   * new buffer and the index of every other byte is appended to `warnings`.
   */
  method FilterControlBytes(buf: seq<byte>) returns (out: seq<byte>, warnings: seq<nat>)
    ensures out == KeptBytes(buf)
    ensures warnings == DroppedBelow(buf, |buf|)
  {
    out, warnings := [], [];
    for idx := 0 to |buf|
      invariant out == KeptBytes(buf[..idx])
      invariant warnings == DroppedBelow(buf, idx)
    {
      var b := buf[idx];
      assert buf[..idx + 1][..idx] == buf[..idx];
      if !Allowed(b) {
        warnings := warnings + [idx];
      } else {
        out := out + [b];
      }
    }
    assert buf[..|buf|] == buf;
  }

  /** Every byte is either kept or warned about. */
  lemma {:induction false} FilterCounts(buf: seq<byte>)
    ensures |KeptBytes(buf)| + |DroppedBelow(buf, |buf|)| == |buf|
    decreases |buf|
  {
    if buf != [] {
      var init := buf[..|buf| - 1];
      FilterCounts(init);
      DroppedPrefix(buf, |buf| - 1);
    }
  }

  /** The warnings below `n` depend only on the first `n` bytes. */
  lemma {:induction false} DroppedPrefix(buf: seq<byte>, n: nat)
    requires n <= |buf|
    ensures DroppedBelow(buf[..n], n) == DroppedBelow(buf, n)
    decreases n
  {
    if n > 0 {
      DroppedPrefix(buf[..n], n - 1);
      assert buf[..n][..n - 1] == buf[..n - 1];
      DroppedPrefix(buf, n - 1);
    }
  }

  /** A warning names exactly a dropped position, and the warnings ascend. */
  lemma {:induction false} DroppedExactly(buf: seq<byte>, n: nat)
    requires n <= |buf|
    ensures forall j: nat :: j in DroppedBelow(buf, n) <==> j < n && !Allowed(buf[j])
    ensures forall a, b :: 0 <= a < b < |DroppedBelow(buf, n)| ==> DroppedBelow(buf, n)[a] < DroppedBelow(buf, n)[b]
    ensures forall a :: 0 <= a < |DroppedBelow(buf, n)| ==> DroppedBelow(buf, n)[a] < n
    decreases n
  {
    if n > 0 {
      DroppedExactly(buf, n - 1);
    }
  }

  /** No kept byte is a control byte other than TAB, LF, FF and CR. */
  lemma {:induction false} KeptAllowed(buf: seq<byte>)
    ensures forall i :: 0 <= i < |KeptBytes(buf)| ==> Allowed(KeptBytes(buf)[i])
    decreases |buf|
  {
    if buf != [] {
      KeptAllowed(buf[..|buf| - 1]);
    }
  }

  /** Filtering a concatenation filters each part: kept bytes keep their order. */
  lemma {:induction false} KeptAppend(a: seq<byte>, b: seq<byte>)
    ensures KeptBytes(a + b) == KeptBytes(a) + KeptBytes(b)
    decreases |b|
  {
    if b == [] {
      assert a + b == a;
    } else {
      var init := b[..|b| - 1];
      KeptAppend(a, init);
      assert (a + b)[..|a + b| - 1] == a + init;
    }
  }

  /** The buffer passes through unchanged exactly when it has no byte to drop. */
  lemma {:induction false} KeptUnchanged(buf: seq<byte>)
    ensures KeptBytes(buf) == buf <==> forall i :: 0 <= i < |buf| ==> Allowed(buf[i])
    decreases |buf|
  {
    if buf != [] {
      var init := buf[..|buf| - 1];
      KeptUnchanged(init);
      FilterCounts(init);
      if !Allowed(buf[|buf| - 1]) {
        assert |KeptBytes(buf)| < |buf|;
      } else if KeptBytes(buf) == buf {
        assert KeptBytes(init) == init by {
          assert KeptBytes(buf)[..|buf| - 1] == KeptBytes(init);
        }
      }
    }
  }

  // ------------------------------------------------------------ authorisation URIs

  /** `compare` is strictly longer than `u` and starts with it. */
  predicate Dominates(compare: string, u: string)
  {
    |compare| > |u| && StartsWith(compare, u)
  }

  /** No URI of the list dominates `u`. */
  predicate Undominated(u: string, all: seq<string>)
  {
    forall c :: c in all ==> !Dominates(c, u)
  }

  /** The URIs of `us` that `all` does not dominate, in order. */
  function KeptUris(us: seq<string>, all: seq<string>): seq<string>
  {
    if us == [] then []
    else
      var last := us[|us| - 1];
      KeptUris(us[..|us| - 1], all) + (if Undominated(last, all) then [last] else [])
  }

  /** The double loop of `polish_metadata` over the URIs found in the authorisation. */
  method FilterBemyndiganden(uris: seq<string>) returns (filtered: seq<string>)
    ensures filtered == KeptUris(uris, uris)
  {
    filtered := [];
    for i := 0 to |uris|
      invariant filtered == KeptUris(uris[..i], uris)
    {
      var u := uris[i];
      var keep := true;
      for j := 0 to |uris|
        invariant keep <==> forall k :: 0 <= k < j ==> !Dominates(uris[k], u)
      {
        var compare := uris[j];
        if |compare| > |u| && StartsWith(compare, u) {
          keep := false;
        }
      }
      assert uris[..i + 1][..i] == uris[..i];
      if keep {
        filtered := filtered + [u];
      }
    }
    assert uris[..|uris|] == uris;
  }

  /** A URI survives exactly when it is in the list and no longer URI of the list starts with it. */
  lemma {:induction false} KeptUrisMembers(us: seq<string>, all: seq<string>, x: string)
    ensures x in KeptUris(us, all) <==> x in us && Undominated(x, all)
    decreases |us|
  {
    if us != [] {
      var init := us[..|us| - 1];
      KeptUrisMembers(init, all, x);
      assert us == init + [us[|us| - 1]];
    }
  }

  /** Duplicates are all kept: a surviving URI occurs as often as in the input. */
  lemma {:induction false} KeptUrisCount(us: seq<string>, all: seq<string>, x: string)
    ensures multiset(KeptUris(us, all))[x] == if Undominated(x, all) then multiset(us)[x] else 0
    decreases |us|
  {
    if us != [] {
      var init := us[..|us| - 1];
      KeptUrisCount(init, all, x);
      assert us == init + [us[|us| - 1]];
    }
  }

  /** Filtering a concatenation filters each part: kept URIs keep their order. */
  lemma {:induction false} KeptUrisAppend(a: seq<string>, b: seq<string>, all: seq<string>)
    ensures KeptUris(a + b, all) == KeptUris(a, all) + KeptUris(b, all)
    decreases |b|
  {
    if b == [] {
      assert a + b == a;
    } else {
      var init := b[..|b| - 1];
      KeptUrisAppend(a, init, all);
      assert (a + b)[..|a + b| - 1] == a + init;
    }
  }

  /** Index of a longest URI. */
  function Longest(us: seq<string>): (i: nat)
    requires us != []
    ensures i < |us| && forall j :: 0 <= j < |us| ==> |us[j]| <= |us[i]|
  {
    if |us| == 1 then 0
    else
      var i := Longest(us[..|us| - 1]);
      assert forall j :: 0 <= j < |us| - 1 ==> us[..|us| - 1][j] == us[j];
      if |us[|us| - 1]| > |us[i]| then |us| - 1 else i
  }

  /** A non-empty list keeps at least one URI: a longest one. */
  lemma FilterKeepsLongest(uris: seq<string>)
    requires uris != []
    ensures KeptUris(uris, uris) != []
  {
    var i := Longest(uris);
    assert Undominated(uris[i], uris);
    KeptUrisMembers(uris, uris, uris[i]);
  }

  // ------------------------------------------------------------ consolidation row

  /** A table row by the text of its `h3`; `None` for a row without one. */
  type Row = Option<string>

  /** The row's heading, whitespace-normalised, says "Konsoliderad". */
  predicate ConsolidationRow(row: Row)
  {
    row.Some? && Contains(NormalizeSpace(row.value), "Konsoliderad")
  }

  /** `NFS._consolidation_row_index`: the index of the first consolidation row, `None` without one. */
  method ConsolidationRowIndex(rows: seq<Row>) returns (r: Option<nat>)
    ensures r.Some? ==> r.value < |rows| && ConsolidationRow(rows[r.value])
    ensures r.Some? ==> forall j :: 0 <= j < r.value ==> !ConsolidationRow(rows[j])
    ensures r.None? <==> forall j :: 0 <= j < |rows| ==> !ConsolidationRow(rows[j])
  {
    for idx := 0 to |rows|
      invariant forall j :: 0 <= j < idx ==> !ConsolidationRow(rows[j])
    {
      var row := rows[idx];
      if row.None? {
        continue;
      }
      var title := NormalizeSpace(row.value);
      if Contains(title, "Konsoliderad") {
        return Some(idx);
      }
    }
    return None;
  }
}
