/** Runs of fixed-format records read back to back: `[decode(buff) for _ in
    range(k)]`, where each record starts where the previous one ended and
    the first failing record raises its error. */
module Records {
  import opened Bytes

  /** Decodes one record of a file at a position. */
  type Decoder<T> = (seq<Byte>, nat) -> Result<Parsed<T>>

  /** `k` records decoded back to back from `pos`. */
  function Many<T>(data: seq<Byte>, pos: nat, k: nat, rec: Decoder<T>): (r: Result<Parsed<seq<T>>>)
    ensures r.Ok? ==> |r.value.value| == k
    decreases k
  {
    if k == 0 then Ok(Parsed([], pos))
    else
      var init := Many(data, pos, k - 1, rec);
      if init.Err? then Err(init.error)
      else
        var x := rec(data, init.value.next);
        if x.Err? then Err(x.error)
        else Ok(Parsed(init.value.value + [x.value.value], x.value.next))
  }

  /** Record `i` of a decoded run is what `rec` decodes where the first `i`
      records end, and it ends where the first `i + 1` end. */
  lemma {:induction false} ManyAt<T>(data: seq<Byte>, pos: nat, k: nat, i: nat, rec: Decoder<T>)
    requires Many(data, pos, k, rec).Ok? && i < k
    ensures Many(data, pos, i, rec).Ok? && Many(data, pos, i + 1, rec).Ok?
    ensures Many(data, pos, i, rec).value.value == Many(data, pos, k, rec).value.value[..i]
    ensures rec(data, Many(data, pos, i, rec).value.next)
            == Ok(Parsed(Many(data, pos, k, rec).value.value[i], Many(data, pos, i + 1, rec).value.next))
    decreases k
  {
    var init := Many(data, pos, k - 1, rec);
    var last := rec(data, init.value.next);
    var all := init.value.value + [last.value.value];
    assert Many(data, pos, k, rec).value.value == all;
    if i < k - 1 {
      ManyAt(data, pos, k - 1, i, rec);
      assert all[..i] == init.value.value[..i] && all[i] == init.value.value[i];
    } else {
      assert all[..i] == init.value.value && all[i] == last.value.value;
    }
  }

  /** Once a run fails, every longer run fails with the same error. */
  lemma {:induction false} ManyFailFrom<T>(data: seq<Byte>, pos: nat, j: nat, n: nat, rec: Decoder<T>)
    requires j <= n && Many(data, pos, j, rec).Err?
    ensures Many(data, pos, n, rec) == Many(data, pos, j, rec)
    decreases n
  {
    if n > j {
      ManyFailFrom(data, pos, j, n - 1, rec);
    }
  }

  /** A record that fails where the first `i` records end fails every run
      of more than `i` records with its error. */
  lemma ManyFailsAt<T>(data: seq<Byte>, pos: nat, i: nat, n: nat, rec: Decoder<T>)
    requires i < n && Many(data, pos, i, rec).Ok?
    requires rec(data, Many(data, pos, i, rec).value.next).Err?
    ensures Many(data, pos, n, rec) == Err(rec(data, Many(data, pos, i, rec).value.next).error)
  {
    ManyFailFrom(data, pos, i + 1, n, rec);
  }

  /** Records of `w` bytes each: `k` of them take `k·w` bytes. */
  lemma {:induction false} ManySpan<T>(data: seq<Byte>, pos: nat, k: nat, w: nat, rec: Decoder<T>)
    requires Many(data, pos, k, rec).Ok?
    requires forall p: nat :: rec(data, p).Ok? ==> rec(data, p).value.next == p + w
    ensures Many(data, pos, k, rec).value.next == pos + k * w
    decreases k
  {
    if k > 0 {
      ManySpan(data, pos, k - 1, w, rec);
      assert (k - 1) * w + w == k * w;
    }
  }

  /** A record never ends before it starts. */
  ghost predicate Advances<T>(data: seq<Byte>, rec: Decoder<T>)
  {
    forall p: nat :: rec(data, p).Ok? ==> p <= rec(data, p).value.next
  }

  /** Records that never end before they start make a run that does not
      either. */
  lemma {:induction false} ManyAdvances<T>(data: seq<Byte>, pos: nat, k: nat, rec: Decoder<T>)
    requires Advances(data, rec) && Many(data, pos, k, rec).Ok?
    ensures pos <= Many(data, pos, k, rec).value.next
    decreases k
  {
    if k > 0 {
      ManyAdvances(data, pos, k - 1, rec);
    }
  }

  /** Two files on which `rec` agrees from `pos` onwards decode the same
      run from `pos`. */
  lemma {:induction false} ManyFrom<T>(d1: seq<Byte>, d2: seq<Byte>, pos: nat, k: nat, rec: Decoder<T>)
    requires forall p: nat :: pos <= p ==> rec(d1, p) == rec(d2, p)
    requires Advances(d1, rec)
    ensures Many(d1, pos, k, rec) == Many(d2, pos, k, rec)
    decreases k
  {
    if k > 0 {
      ManyFrom(d1, d2, pos, k - 1, rec);
      if Many(d1, pos, k - 1, rec).Ok? {
        ManyAdvances(d1, pos, k - 1, rec);
      }
    }
  }

  /** A run never reads past where it ends, provided no record does:
      cutting the file at or after its end leaves it unchanged. */
  lemma {:induction false} ManyPrefix<T>(data: seq<Byte>, pos: nat, n: nat, k: nat, rec: Decoder<T>)
    requires k <= |data| && Advances(data, rec)
    requires forall p: nat :: rec(data, p).Ok? && rec(data, p).value.next <= k ==> rec(data[..k], p) == rec(data, p)
    requires Many(data, pos, n, rec).Ok? && Many(data, pos, n, rec).value.next <= k
    ensures Many(data[..k], pos, n, rec) == Many(data, pos, n, rec)
    decreases n
  {
    if n > 0 {
      var init := Many(data, pos, n - 1, rec);
      var last := rec(data, init.value.next);
      assert init.value.next <= last.value.next;
      ManyPrefix(data, pos, n - 1, k, rec);
    }
  }

  /** Records of exactly `w` bytes that decode exactly when `w` bytes
      remain: `k` of them decode exactly when `k·w` bytes remain. */
  lemma {:induction false} ManyFixed<T>(data: seq<Byte>, pos: nat, k: nat, w: nat, rec: Decoder<T>)
    requires pos <= |data|
    requires forall p: nat :: pos <= p <= |data| ==> (rec(data, p).Ok? <==> p + w <= |data|)
    requires forall p: nat :: pos <= p <= |data| && rec(data, p).Ok? ==> rec(data, p).value.next == p + w
    ensures Many(data, pos, k, rec).Ok? <==> pos + k * w <= |data|
    ensures Many(data, pos, k, rec).Ok? ==> Many(data, pos, k, rec).value.next == pos + k * w
    decreases k
  {
    if k > 0 {
      assert k * w == (k - 1) * w + w;
      ManyFixed(data, pos, k - 1, w, rec);
    }
  }
}
