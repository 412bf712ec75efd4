/** The sender's stash of encoded frames: a map by wire number with its insertion order, capped
    by evicting the oldest, and freed from the front by cumulative acknowledgements. */
module SendStash {
  import opened SeqNum
  import opened Bytes

  ghost predicate Distinct(s: seq<u32>) {
    forall i, j :: 0 <= i < j < |s| ==> s[i] != s[j]
  }

  ghost function Elements(s: seq<u32>): set<u32> {
    set q | q in s
  }

  lemma {:induction false} DistinctCount(s: seq<u32>)
    requires Distinct(s)
    ensures |Elements(s)| == |s|
  {
    if s != [] {
      var n := |s| - 1;
      DistinctCount(s[..n]);
      assert Elements(s) == Elements(s[..n]) + {s[n]};
    }
  }

  lemma ElementsTail(s: seq<u32>)
    requires s != [] && Distinct(s)
    ensures Elements(s[1..]) == Elements(s) - {s[0]} && Distinct(s[1..])
  {
    assert s == [s[0]] + s[1..];
  }

  /** What an acknowledgement up to `ack` leaves of the order list. */
  ghost function Unacked(order: seq<u32>, ack: u32): seq<u32> {
    if order == [] then []
    else
      var rest := Unacked(order[..|order| - 1], ack);
      var q := order[|order| - 1];
      if Diff(q, ack) <= 0 then rest else rest + [q]
  }

  lemma {:induction false} UnackedElements(order: seq<u32>, ack: u32)
    ensures |Unacked(order, ack)| <= |order|
    ensures forall q :: q in Unacked(order, ack) <==> q in order && Diff(q, ack) > 0
    ensures Distinct(order) ==> Distinct(Unacked(order, ack))
  {
    if order != [] {
      UnackedElements(order[..|order| - 1], ack);
      assert order == order[..|order| - 1] + [order[|order| - 1]];
    }
  }

  class Stash {
    var m: map<u32, seq<byte>>
    var order: seq<u32>
    const limit: int
    var hits: nat
    var misses: nat

    /** The order list and the map hold the same numbers, each once, within the cap. */
    ghost predicate Valid()
      reads this
    {
      0 < limit && Distinct(order) && m.Keys == Elements(order) && |order| <= limit
    }

    constructor (cap: int)
      ensures Valid() && m == map[] && order == [] && hits == misses == 0
      ensures limit == if cap <= 0 then 8192 else cap
    {
      limit := if cap <= 0 then 8192 else cap;
      m, order, hits, misses := map[], [], 0, 0;
    }

    /** Keep a frame; past the cap the oldest number goes. */
    method Put(num: u32, frame: seq<byte>)
      requires Valid()
      modifies `m, `order
      ensures Valid()
      ensures num in old(m) ==> order == old(order) && m == old(m)[num := frame]
      ensures num !in old(m) && |old(order)| < limit ==> order == old(order) + [num] && m == old(m)[num := frame]
      ensures num !in old(m) && |old(order)| == limit ==>
        order == old(order)[1..] + [num] && m == old(m)[num := frame] - {old(order)[0]}
    {
      if num !in m {
        order := order + [num];
      }
      m := m[num := frame];
      EvictOldest();
    }

    /** Back under the cap, oldest first. */
    method EvictOldest()
      requires 0 < limit && Distinct(order) && m.Keys == Elements(order) && |order| <= limit + 1
      modifies `m, `order
      ensures Valid()
      ensures if |old(order)| <= limit then order == old(order) && m == old(m)
        else order == old(order)[1..] && m == old(m) - {old(order)[0]}
    {
      DistinctCount(order);
      while |m| > limit && |order| > 0
        invariant Distinct(order) && m.Keys == Elements(order) && |m| == |order|
        invariant (order == old(order) && m == old(m))
          || (|order| == limit && |old(order)| == limit + 1 && order == old(order)[1..] && m == old(m) - {old(order)[0]})
        decreases |order|
      {
        var oldest := order[0];
        ElementsTail(order);
        order := order[1..];
        m := m - {oldest};
        DistinctCount(order);
      }
    }

    /** Look a frame up, counting hits and misses. */
    method Get(num: u32) returns (frame: seq<byte>, ok: bool)
      requires Valid()
      modifies `hits, `misses
      ensures Valid()
      ensures ok <==> num in m
      ensures ok ==> frame == m[num] && hits == old(hits) + 1 && misses == old(misses)
      ensures !ok ==> frame == [] && hits == old(hits) && misses == old(misses) + 1
    {
      ok := num in m;
      if ok {
        frame := m[num];
        hits := hits + 1;
      } else {
        frame := [];
        misses := misses + 1;
      }
    }

    /** Free everything at or below `num`. The kept numbers are written over the front of the
        very list being read, so `buf` is both. */
    method AckUpTo(num: u32)
      requires Valid()
      modifies `m, `order
      ensures Valid()
      ensures order == Unacked(old(order), num)
      ensures m == Released(old(m), num)
    {
      hide SeqNum.Diff, Freed, Released;
      var list := order;
      var buf, kept := list, 0;
      ghost var before := m;
      FreedNone(m, num);
      assert list[..0] == [];
      for i := 0 to |list|
        invariant kept <= i && |buf| == |list| && forall k :: i <= k < |list| ==> buf[k] == list[k]
        invariant buf[..kept] == Unacked(list[..i], num)
        invariant m == Freed(before, list[..i], num)
      {
        var q := buf[i];
        StepTo(list, i, num, before);
        if Diff(q, num) <= 0 {
          m := m - {q};
        } else {
          buf := buf[kept := q];
          kept := kept + 1;
        }
      }
      assert list[..|list|] == list;
      FreedAll(before, list, num);
      UnackedElements(list, num);
      order := buf[..kept];
    }
  }

  /** What an acknowledgement up to `ack` leaves of the map. */
  ghost function Released(m: map<u32, seq<byte>>, ack: u32): map<u32, seq<byte>> {
    map q | q in m && Diff(q, ack) > 0 :: m[q]
  }

  /** The map without the acknowledged numbers of `prefix`. */
  ghost function Freed(m: map<u32, seq<byte>>, prefix: seq<u32>, ack: u32): map<u32, seq<byte>> {
    map q | q in m && !(q in prefix && Diff(q, ack) <= 0) :: m[q]
  }

  lemma FreedNone(m: map<u32, seq<byte>>, ack: u32)
    ensures Freed(m, [], ack) == m
  {
  }

  lemma FreedAll(m: map<u32, seq<byte>>, order: seq<u32>, ack: u32)
    requires m.Keys == Elements(order)
    ensures Freed(m, order, ack) == Released(m, ack) && Released(m, ack).Keys == Elements(Unacked(order, ack))
    ensures forall q :: q in Released(m, ack) ==> q in m && Released(m, ack)[q] == m[q]
  {
    UnackedElements(order, ack);
    assert forall q :: q in m <==> q in order;
  }

  lemma StepTo(list: seq<u32>, i: nat, ack: u32, m: map<u32, seq<byte>>)
    requires i < |list|
    ensures Unacked(list[..i + 1], ack) == Unacked(list[..i], ack) + if Diff(list[i], ack) <= 0 then [] else [list[i]]
    ensures Freed(m, list[..i + 1], ack) == Freed(m, list[..i], ack) - if Diff(list[i], ack) <= 0 then {list[i]} else {}
  {
    assert list[..i + 1][..i] == list[..i];
    assert list[..i + 1] == list[..i] + [list[i]];
  }
}
