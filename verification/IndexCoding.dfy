/**
 * The differential index coding of BlockTransactionsRequest (src/blockencodings.h): each index is sent as
 * its distance from the one before, less one, and a running 16-bit offset restores it.
 */
module IndexCoding {
  import opened Foundations

  const MAX16: nat := 0xffff

  ghost predicate Increasing(xs: seq<nat>) { forall i, j :: 0 <= i < j < |xs| ==> xs[i] < xs[j] }

  ghost predicate Is16(xs: seq<nat>) { forall i :: 0 <= i < |xs| ==> xs[i] <= MAX16 }

  /** The number sent for indexes[i]: a 64-bit value, so a negative difference becomes very large. */
  function Difference(xs: seq<nat>, i: nat): nat
    requires i < |xs|
  {
    Wrap64(xs[i], if i == 0 then 0 else xs[i - 1] + 1)
  }

  function Wrap64(x: int, y: int): nat { (x - y) % 0x1_0000_0000_0000_0000 }

  lemma Wrapped(x: nat, y: nat)
    requires x <= MAX16 && y <= 0x1_0000
    ensures y <= x ==> Wrap64(x, y) == x - y
    ensures x < y ==> Wrap64(x, y) > MAX16
  {
    if x < y {
      assert Wrap64(x, y) == x - y + 0x1_0000_0000_0000_0000;
    }
  }

  /** The writing half of SerializationOp. */
  method Encode(xs: seq<nat>) returns (ds: seq<nat>)
    ensures ds == Encoded(xs)
  {
    ds := [];
    for i := 0 to |xs|
      invariant ds == Encoded(xs)[..i]
    {
      ds := ds + [Difference(xs, i)];
    }
  }

  ghost function Encoded(xs: seq<nat>): (ds: seq<nat>)
    ensures |ds| == |xs|
  {
    seq(|xs|, i requires 0 <= i < |xs| => Difference(xs, i))
  }

  /** Adding up the differences; None is the exception for an index beyond 16 bits. */
  ghost function Restored(ds: seq<nat>, offset: nat): Option<seq<nat>> {
    if ds == [] then Some([])
    else if ds[0] + offset > MAX16 then None
    else
      var rest := Restored(ds[1..], (ds[0] + offset + 1) % 0x1_0000);
      if rest.None? then None else Some([ds[0] + offset] + rest.value)
  }

  ghost function Decoded(ds: seq<nat>): Option<seq<nat>> {
    if Is16(ds) then Restored(ds, 0) else None
  }

  /** The numbers sent for 16-bit indexes: the number of places skipped, or almost 2^64 for an index that is not larger. */
  lemma DifferencesAre(xs: seq<nat>, i: nat)
    requires Is16(xs) && i < |xs|
    ensures i == 0 ==> Encoded(xs)[0] == xs[0]
    ensures i > 0 ==> Encoded(xs)[i] + xs[i - 1] + 1 == xs[i] + if xs[i] <= xs[i - 1] then 0x1_0000_0000_0000_0000 else 0
  {
  }

  /** Each index is the number received and the one after the index before, in 16 bits, and stays within 16 bits. */
  ghost predicate AddsUp(ds: seq<nat>, offset: nat, xs: seq<nat>) {
    && |xs| == |ds|
    && forall i {:trigger ds[i]} :: 0 <= i < |ds| ==> xs[i] == ds[i] + (if i == 0 then offset else (xs[i - 1] + 1) % 65536) <= 65535
  }

  lemma AddsUpNext(ds: seq<nat>, offset: nat, xs: seq<nat>)
    requires ds != [] && |xs| == |ds|
    ensures AddsUp(ds, offset, xs) <==>
      xs[0] == ds[0] + offset <= 65535 && AddsUp(ds[1..], (ds[0] + offset + 1) % 65536, xs[1..])
  {
    var ds', xs', next := ds[1..], xs[1..], (ds[0] + offset + 1) % 65536;
    if AddsUp(ds, offset, xs) {
      assert xs[0] == ds[0] + offset;
      forall i | 0 <= i < |ds'| ensures xs'[i] == ds'[i] + (if i == 0 then next else (xs'[i - 1] + 1) % 65536) <= 65535 {
        assert ds'[i] == ds[i + 1];
      }
    }
    if xs[0] == ds[0] + offset <= 65535 && AddsUp(ds', next, xs') {
      forall i | 0 <= i < |ds| ensures xs[i] == ds[i] + (if i == 0 then offset else (xs[i - 1] + 1) % 65536) <= 65535 {
        if i > 0 { assert ds'[i - 1] == ds[i]; }
      }
    }
  }

  lemma {:induction false} RestoredIff(ds: seq<nat>, offset: nat, xs: seq<nat>)
    requires |xs| == |ds|
    ensures Restored(ds, offset) == Some(xs) <==> AddsUp(ds, offset, xs)
    decreases |ds|
  {
    if ds != [] {
      AddsUpNext(ds, offset, xs);
      RestoredIff(ds[1..], (ds[0] + offset + 1) % 65536, xs[1..]);
      hide AddsUp;
      if ds[0] + offset <= MAX16 {
        RestoredStep(ds, offset);
        hide Restored;
        PrependIff(ds[0] + offset, Restored(ds[1..], (ds[0] + offset + 1) % 65536), xs);
      }
    }
  }

  lemma PrependIff(x: nat, r: Option<seq<nat>>, xs: seq<nat>)
    requires xs != []
    ensures Prepend([x], r) == Some(xs) <==> xs[0] == x && r == Some(xs[1..])
  {
    assert xs == [xs[0]] + xs[1..];
    if Prepend([x], r) == Some(xs) {
      assert ([x] + r.value)[1..] == r.value;
    }
  }

  /** The indexes received are those that add up, if the numbers and the indexes fit in 16 bits. */
  lemma DecodedIff(ds: seq<nat>, xs: seq<nat>)
    ensures Decoded(ds) == Some(xs) <==>
      && |xs| == |ds| && (forall i :: 0 <= i < |ds| ==> ds[i] <= 65535)
      && forall i {:trigger ds[i]} :: 0 <= i < |ds| ==> xs[i] == ds[i] + (if i == 0 then 0 else (xs[i - 1] + 1) % 65536) <= 65535
  {
    RestoredLength(ds, 0);
    hide Restored;
    if |xs| == |ds| {
      RestoredIff(ds, 0, xs);
    }
  }

  lemma {:induction false} RestoredLength(ds: seq<nat>, offset: nat)
    ensures Restored(ds, offset).Some? ==> |Restored(ds, offset).value| == |ds|
  {
    if ds != [] && ds[0] + offset <= MAX16 {
      RestoredLength(ds[1..], (ds[0] + offset + 1) % 0x1_0000);
    }
  }

  /** The reading half of SerializationOp, after the length: range checks first, then the offsets in place. */
  method Decode(ds: seq<nat>) returns (r: Option<seq<nat>>)
    ensures r == Decoded(ds)
  {
    var indexes := new nat[|ds|];
    for i := 0 to |ds|
      invariant forall j :: 0 <= j < i ==> ds[j] <= MAX16 && indexes[j] == ds[j]
    {
      if ds[i] > MAX16 {
        return None;
      }
      indexes[i] := ds[i];
    }
    var offset := 0;
    var j := 0;
    assert ds[0..] == ds && indexes[..0] == [];
    PrependNone(Restored(ds, 0));
    while j < |ds|
      invariant 0 <= j <= |ds| && 0 <= offset <= MAX16
      invariant forall k :: j <= k < |ds| ==> indexes[k] == ds[k]
      invariant Restored(ds, 0) == Prepend(indexes[..j], Restored(ds[j..], offset))
    {
      ghost var done, rest := indexes[..j], ds[j..];
      assert rest[0] == ds[j] && rest[1..] == ds[j + 1..];
      if indexes[j] + offset > MAX16 {
        return None;
      }
      indexes[j] := indexes[j] + offset;
      PrependTwice(done, indexes[j], Restored(ds[j + 1..], (indexes[j] + 1) % 0x1_0000));
      assert indexes[..j + 1] == done + [indexes[j]];
      offset := (indexes[j] + 1) % 0x1_0000;
      j := j + 1;
    }
    assert ds[j..] == [] && indexes[..j] == indexes[..];
    assert indexes[..] + [] == indexes[..];
    return Some(indexes[..]);
  }

  ghost function Prepend(xs: seq<nat>, r: Option<seq<nat>>): Option<seq<nat>> {
    if r.None? then None else Some(xs + r.value)
  }

  lemma PrependNone(r: Option<seq<nat>>)
    ensures Prepend([], r) == r
  {
    if r.Some? {
      assert [] + r.value == r.value;
    }
  }

  lemma PrependTwice(xs: seq<nat>, x: nat, r: Option<seq<nat>>)
    ensures Prepend(xs, Prepend([x], r)) == Prepend(xs + [x], r)
  {
    if r.Some? {
      assert xs + ([x] + r.value) == xs + [x] + r.value;
    }
  }

  /** The index a list of differences leads to, plus one. */
  ghost function Total(ds: seq<nat>): nat { if ds == [] then 0 else ds[0] + 1 + Total(ds[1..]) }

  ghost predicate AllAtLeast(xs: seq<nat>, low: nat) { forall i :: 0 <= i < |xs| ==> low <= xs[i] }

  /** Up to the largest 16-bit index the restored indexes are increasing. */
  lemma {:induction false} RestoredFits(ds: seq<nat>, offset: nat)
    requires offset + Total(ds) <= 0x1_0000
    ensures Restored(ds, offset).Some?
    ensures var xs := Restored(ds, offset).value; |xs| == |ds| && Increasing(xs) && Is16(xs) && AllAtLeast(xs, offset)
  {
    if ds != [] {
      if ds[1..] == [] {
        assert Restored(ds[1..], (ds[0] + offset + 1) % 0x1_0000) == Some([]);
      } else {
        assert Total(ds[1..]) > 0;
        RestoredFits(ds[1..], ds[0] + offset + 1);
      }
    }
  }

  /** Beyond it, decoding fails or the offset has wrapped around, which leaves a smaller index after 65535. */
  lemma {:induction false} RestoredWraps(ds: seq<nat>, offset: nat)
    requires Is16(ds) && offset <= MAX16 && offset + Total(ds) > 0x1_0000
    ensures Restored(ds, offset).Some? ==> !Increasing(Restored(ds, offset).value)
  {
    if ds[0] + offset < MAX16 {
      RestoredWraps(ds[1..], ds[0] + offset + 1);
      var r := Restored(ds, offset);
      if r.Some? {
        RestShift(r.value, ds[0] + offset, Restored(ds[1..], ds[0] + offset + 1).value);
      }
    } else if ds[0] + offset == MAX16 {
      var rest := Restored(ds[1..], 0);
      assert ds[1..] != [];
      RestoredLength(ds[1..], 0);
      RestoredBelow(ds[1..], 0);
      if rest.Some? {
        var xs := Restored(ds, offset).value;
        assert xs[0] == MAX16 && xs[1] == rest.value[0];
      }
    }
  }

  lemma RestShift(xs: seq<nat>, x: nat, rest: seq<nat>)
    requires xs == [x] + rest && !Increasing(rest)
    ensures !Increasing(xs)
  {
    var i, j :| 0 <= i < j < |rest| && rest[i] >= rest[j];
    assert xs[i + 1] == rest[i] && xs[j + 1] == rest[j];
  }

  lemma {:induction false} RestoredBelow(ds: seq<nat>, offset: nat)
    ensures Restored(ds, offset).Some? ==> Is16(Restored(ds, offset).value)
  {
    if ds != [] && ds[0] + offset <= MAX16 {
      RestoredBelow(ds[1..], (ds[0] + offset + 1) % 0x1_0000);
    }
  }

  /** A received list decodes to increasing indexes exactly when they stay within 16 bits. */
  lemma IncreasingIff(ds: seq<nat>)
    requires Is16(ds)
    ensures Decoded(ds).Some? && Increasing(Decoded(ds).value) <==> Total(ds) <= 0x1_0000
  {
    if Total(ds) <= 0x1_0000 {
      RestoredFits(ds, 0);
    } else {
      RestoredWraps(ds, 0);
    }
  }

  /** The offset's wrap-around lets a list through that is not increasing. */
  lemma WrappedExample()
    ensures Decoded([0xffff, 0]) == Some([0xffff, 0])
  {
    var one, two: seq<nat> := [0], [0xffff, 0];
    assert two[1..] == one && one[1..] == [];
    RestoredStep(one, 0);
    RestoredStep(two, 0);
    assert (0xffff + 1) % 0x1_0000 == 0;
    assert two == [0xffff] + ([0] + []);
  }

  lemma RestoredStep(ds: seq<nat>, offset: nat)
    requires ds != [] && ds[0] + offset <= MAX16
    ensures Restored(ds, offset) == Prepend([ds[0] + offset], Restored(ds[1..], (ds[0] + offset + 1) % 0x1_0000))
  {}

  /** The offset with which indexes[i] is restored. */
  ghost function OffsetAt(xs: seq<nat>, i: nat): nat
    requires i <= |xs|
  {
    if i == 0 then 0 else xs[i - 1] + 1
  }

  lemma {:induction false} RestoredEncoded(xs: seq<nat>, i: nat)
    requires Is16(xs) && i < |xs| && Increasing(xs)
    ensures Restored(Encoded(xs)[i..], OffsetAt(xs, i)) == Some(xs[i..])
    decreases |xs| - i
  {
    var ds, x := Encoded(xs)[i..], xs[i];
    assert ds[1..] == Encoded(xs)[i + 1..];
    assert xs[i..] == [x] + xs[i + 1..];
    hide Encoded;
    Wrapped(x, OffsetAt(xs, i));
    assert ds[0] + OffsetAt(xs, i) == x;
    if i + 1 == |xs| {
      assert ds[1..] == [] && xs[i + 1..] == [];
      assert Restored(ds[1..], (x + 1) % 0x1_0000) == Some([]);
    } else {
      assert x < xs[i + 1];
      RestoredEncoded(xs, i + 1);
    }
  }

  lemma Adjacent(xs: seq<nat>) returns (i: nat)
    requires !Increasing(xs)
    ensures 0 < i < |xs| && xs[i] <= xs[i - 1]
  {
    i := 0;
    if j :| 0 < j < |xs| && xs[j] <= xs[j - 1] {
      i := j;
    } else {
      ChainIncreases(xs);
      assert false;
    }
  }

  lemma ChainIncreases(xs: seq<nat>)
    requires forall j :: 0 < j < |xs| ==> xs[j - 1] < xs[j]
    ensures Increasing(xs)
  {
    forall i, j | 0 <= i < j < |xs| ensures xs[i] < xs[j] {
      Chain(xs, i, j);
    }
  }

  lemma {:induction false} Chain(xs: seq<nat>, i: nat, j: nat)
    requires i < j < |xs| && forall k :: 0 < k < |xs| ==> xs[k - 1] < xs[k]
    ensures xs[i] < xs[j]
    decreases j
  {
    assert xs[j - 1] < xs[j];
    if i < j - 1 { Chain(xs, i, j - 1); }
  }

  /** A list of indexes survives the coding exactly when it is increasing. */
  lemma RoundTrip(xs: seq<nat>)
    requires Is16(xs)
    ensures Decoded(Encoded(xs)) == Some(xs) <==> Increasing(xs)
  {
    if Increasing(xs) {
      forall i | 0 <= i < |xs| ensures Encoded(xs)[i] <= MAX16 {
        Wrapped(xs[i], OffsetAt(xs, i));
      }
      if xs != [] {
        RestoredEncoded(xs, 0);
        assert Encoded(xs)[0..] == Encoded(xs) && xs[0..] == xs;
      }
    } else {
      var i := Adjacent(xs);
      Wrapped(xs[i], OffsetAt(xs, i));
      assert Encoded(xs)[i] > MAX16;
    }
  }
}
