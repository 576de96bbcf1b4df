/** How allocation and freeing move block boundaries and what they do to the handle map. */
module HeapLayout {
  import opened KernelHeap
  import opened Wrappers

  lemma {:induction false} AddrIncreasing(bs: seq<Block>, i: nat, j: nat)
    requires i < j <= |bs|
    ensures Addr(bs, i) + HEADER + bs[i].size <= Addr(bs, j)
  {
    if i + 1 < j {
      AddrIncreasing(bs, i, j - 1);
    }
  }

  /** Addresses depend only on the sizes below. */
  lemma {:induction false} AddrSameSizes(bs: seq<Block>, cs: seq<Block>, i: nat)
    requires i <= |bs| && i <= |cs|
    requires forall j :: 0 <= j < i ==> bs[j].size == cs[j].size
    ensures Addr(bs, i) == Addr(cs, i)
  {
    if i > 0 {
      AddrSameSizes(bs, cs, i - 1);
    }
  }

  /** A handle names at most one block, so the lookup finds it. */
  lemma LookupLive(bs: seq<Block>, i: nat, p: nat)
    requires LiveAt(bs, i, p)
    ensures IndexOf(bs, p, 0) == i
    ensures Lookup(bs, p) == Some(bs[i].used)
  {
    var r := IndexOf(bs, p, 0);
    if r < i {
      AddrIncreasing(bs, r, i);
    }
  }

  lemma LookupDead(bs: seq<Block>, p: nat)
    requires forall i :: 0 <= i < |bs| ==> !LiveAt(bs, i, p)
    ensures Lookup(bs, p) == None
  {
  }

  /** Block `t` of `bs` stands at the same address in `cs`, `k - i` places later when it is above `i`. */
  ghost predicate Kept(bs: seq<Block>, cs: seq<Block>, i: nat, k: nat, t: nat)
    requires i <= k
  {
    var j := if t < i then t else t + (k - i);
    t < |bs| && j < |cs| && cs[j] == bs[t] && Addr(cs, j) == Addr(bs, t)
  }

  /** `cs` replaces block `i` of `bs` by blocks `i..k + 1` and moves no other block. */
  ghost predicate Replaces(bs: seq<Block>, cs: seq<Block>, i: nat, k: nat)
  {
    && i <= k && i < |bs|
    && |cs| == |bs| + (k - i)
    && (forall t :: 0 <= t < |bs| && t != i ==> Kept(bs, cs, i, k, t))
    && Addr(cs, i) == Addr(bs, i)
    && Addr(cs, k + 1) == Addr(bs, i + 1)
    && End(cs) == End(bs)
  }

  lemma {:induction false} AddrShift(bs: seq<Block>, cs: seq<Block>, i: nat, d: nat, j: nat)
    requires i < j <= |bs| && |cs| == |bs| + d
    requires Addr(cs, i + 1 + d) == Addr(bs, i + 1)
    requires bs[i + 1..] == cs[i + 1 + d..]
    ensures Addr(cs, j + d) == Addr(bs, j)
  {
    if i + 1 < j {
      AddrShift(bs, cs, i, d, j - 1);
      assert bs[i + 1..][j - i - 2] == cs[i + 1 + d..][j - i - 2];
    }
  }

  lemma KeptFromSizes(bs: seq<Block>, cs: seq<Block>, i: nat, k: nat, t: nat)
    requires i <= k && i < |bs| && |cs| == |bs| + (k - i)
    requires bs[..i] == cs[..i] && bs[i + 1..] == cs[k + 1..]
    requires Addr(cs, k + 1) == Addr(bs, i + 1)
    requires t < |bs| && t != i
    ensures Kept(bs, cs, i, k, t)
  {
    if t < i {
      assert bs[..i][t] == cs[..i][t];
      forall j | 0 <= j < t ensures bs[j] == cs[j] {
        assert bs[..i][j] == cs[..i][j];
      }
      AddrSameSizes(bs, cs, t);
    } else {
      assert bs[i + 1..][t - i - 1] == cs[k + 1..][t - i - 1];
      AddrShift(bs, cs, i, k - i, t);
    }
  }

  lemma ReplacesFromSizes(bs: seq<Block>, cs: seq<Block>, i: nat, k: nat)
    requires i <= k && i < |bs| && |cs| == |bs| + (k - i)
    requires bs[..i] == cs[..i] && bs[i + 1..] == cs[k + 1..]
    requires Addr(cs, i) == Addr(bs, i) ==> Addr(cs, k + 1) == Addr(bs, i + 1)
    ensures Replaces(bs, cs, i, k)
  {
    forall j | 0 <= j < i ensures bs[j] == cs[j] {
      assert bs[..i][j] == cs[..i][j];
    }
    AddrSameSizes(bs, cs, i);
    forall t | 0 <= t < |bs| && t != i ensures Kept(bs, cs, i, k, t) {
      KeptFromSizes(bs, cs, i, k, t);
    }
    AddrShift(bs, cs, i, k - i, |bs|);
  }

  lemma ResizeNothing(bs: seq<Block>, i: nat, b: Block)
    requires i < |bs| && b.size == bs[i].size
    ensures Replaces(bs, bs[i := b], i, i)
  {
    ReplacesFromSizes(bs, bs[i := b], i, i);
  }

  lemma SplitInTwo(bs: seq<Block>, i: nat, b: Block, c: Block)
    requires i < |bs| && b.size + HEADER + c.size == bs[i].size
    ensures Replaces(bs, bs[..i] + [b, c] + bs[i + 1..], i, i + 1)
  {
    var cs := bs[..i] + [b, c] + bs[i + 1..];
    assert cs[i] == b && cs[i + 1] == c;
    assert Addr(cs, i + 2) == Addr(cs, i + 1) + HEADER + c.size;
    ReplacesFromSizes(bs, cs, i, i + 1);
  }

  /** A reused block keeps every old boundary: the excess stays in front, the new block gets the tail. */
  lemma CarveReplaces(bs: seq<Block>, i: nat, n: u32)
    requires i < |bs|
    ensures var (cs, k) := Carve(bs, i, n);
            k < |cs| && Replaces(bs, cs, i, k) && Replaces(bs, Activate(cs, k, n), i, k)
  {
    var (cs, k) := Carve(bs, i, n);
    if Splits(bs[i], n) {
      var b := Block(Free, bs[i].size - n - HEADER, 0);
      SplitInTwo(bs, i, b, Block(Free, n, 0));
      SplitInTwo(bs, i, b, Block(Active, n, n));
      assert Activate(cs, k, n) == bs[..i] + [b, Block(Active, n, n)] + bs[i + 1..];
    } else {
      ResizeNothing(bs, i, bs[i]);
      ResizeNothing(bs, i, Block(Active, bs[i].size, n));
    }
  }

  /** `ds` is `bs` with the idle block `i` replaced by idle blocks and the live block `k`. */
  ghost predicate Revives(bs: seq<Block>, ds: seq<Block>, i: nat, k: nat)
  {
    && Replaces(bs, ds, i, k)
    && bs[i].status != Active
    && ds[k].status == Active
    && (forall j :: i <= j < k ==> ds[j].status != Active)
  }

  lemma LookupRevived(bs: seq<Block>, ds: seq<Block>, i: nat, k: nat)
    requires Revives(bs, ds, i, k)
    ensures Lookup(ds, Handle(ds, k)) == Some(ds[k].used)
    ensures Lookup(bs, Handle(ds, k)) == None
  {
    var p := Handle(ds, k);
    LookupLive(ds, k, p);
    forall t | 0 <= t < |bs| ensures !LiveAt(bs, t, p) {
      if t != i {
        assert Kept(bs, ds, i, k, t);
        if t < i {
          AddrIncreasing(ds, t, k);
        } else {
          AddrIncreasing(ds, k, t + (k - i));
        }
      }
    }
    LookupDead(bs, p);
  }

  lemma LookupOthers(bs: seq<Block>, ds: seq<Block>, i: nat, k: nat, p: nat)
    requires Revives(bs, ds, i, k) && p != Handle(ds, k)
    ensures Lookup(ds, p) == Lookup(bs, p)
  {
    var r := IndexOf(bs, p, 0);
    if r < |bs| {
      assert Kept(bs, ds, i, k, r);
      LookupLive(ds, if r < i then r else r + (k - i), p);
    } else {
      forall j | 0 <= j < |ds| ensures !LiveAt(ds, j, p) {
        if !(i <= j <= k) {
          var t := if j < i then j else j - (k - i);
          assert Kept(bs, ds, i, k, t) && !LiveAt(bs, t, p);
        }
      }
      LookupDead(ds, p);
    }
  }

  /** Activating the reused block adds exactly one entry to the handle map. */
  lemma LookupReuse(bs: seq<Block>, i: nat, n: u32, p: nat)
    requires i < |bs| && bs[i].status != Active
    ensures var (cs, k) := Carve(bs, i, n);
            k < |cs| &&
            Lookup(Activate(cs, k, n), p) == (if p == Addr(cs, k) + HEADER then Some(n) else Lookup(bs, p)) &&
            (p == Addr(cs, k) + HEADER ==> Lookup(bs, p) == None)
  {
    CarveReplaces(bs, i, n);
    var (cs, k) := Carve(bs, i, n);
    var ds := Activate(cs, k, n);
    AddrSameSizes(cs, ds, k);
    assert Revives(bs, ds, i, k);
    LookupRevived(bs, ds, i, k);
    if p != Handle(ds, k) {
      LookupOthers(bs, ds, i, k, p);
    }
  }

  lemma LookupBump(bs: seq<Block>, n: u32, p: nat)
    ensures var ds := bs + [Block(Active, n, n)];
            Lookup(ds, p) == (if p == End(bs) + HEADER then Some(n) else Lookup(bs, p)) &&
            (p == End(bs) + HEADER ==> Lookup(bs, p) == None)
  {
    var ds := bs + [Block(Active, n, n)];
    forall j | 0 <= j <= |bs| ensures Addr(ds, j) == Addr(bs, j) {
      AddrSameSizes(bs, ds, j);
    }
    if p == End(bs) + HEADER {
      LookupLive(ds, |bs|, p);
      forall j | 0 <= j < |bs| ensures !LiveAt(bs, j, p) {
        AddrIncreasing(bs, j, |bs|);
      }
      LookupDead(bs, p);
    } else {
      var r := IndexOf(bs, p, 0);
      if r < |bs| {
        LookupLive(ds, r, p);
      } else {
        forall j | 0 <= j < |ds| ensures !LiveAt(ds, j, p) {
          assert j < |bs| ==> ds[j] == bs[j] && !LiveAt(bs, j, p);
        }
        LookupDead(ds, p);
      }
    }
  }

  lemma LookupFreed(bs: seq<Block>, i: nat, q: nat, p: nat)
    requires LiveAt(bs, i, q)
    ensures Lookup(bs[i := bs[i].(status := Free)], p) == (if p == q then None else Lookup(bs, p))
  {
    var ds := bs[i := bs[i].(status := Free)];
    forall j | 0 <= j <= |bs| ensures Addr(ds, j) == Addr(bs, j) {
      AddrSameSizes(bs, ds, j);
    }
    LookupLive(bs, i, q);
    if p == q || Lookup(bs, p) == None {
      forall j | 0 <= j < |ds| ensures !LiveAt(ds, j, p) {
        if LiveAt(ds, j, p) {
          LookupLive(bs, j, p);
        }
      }
      LookupDead(ds, p);
    } else {
      LookupLive(ds, IndexOf(bs, p, 0), p);
    }
  }
}
