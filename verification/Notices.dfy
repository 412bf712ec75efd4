/** The operator's notice list: a bounded ring with an index that collapses repeats. */
module Notices {

  datatype Notice = Notice(at: int, level: string, kind: string, msg: string, fix: string, peer: string, count: nat)

  const MAX_NOTICES: int := 200
  const NUL: char := '\0'

  function Key(n: Notice): string {
    n.kind + [NUL] + n.peer + [NUL] + n.msg
  }

  /** The same event as far as collapsing repeats goes. */
  predicate Same(a: Notice, b: Notice) {
    a.kind == b.kind && a.peer == b.peer && a.msg == b.msg
  }

  /** What the key's separators rely on. */
  predicate Separable(n: Notice) {
    NUL !in n.kind && NUL !in n.peer
  }

  lemma PrefixUpToNul(a: string, x: string, b: string, y: string)
    requires NUL !in a && NUL !in b && a + [NUL] + x == b + [NUL] + y
    ensures a == b && x == y
  {
    var s := a + [NUL] + x;
    assert s[|a|] == NUL && s[|b|] == NUL;
    assert forall k :: 0 <= k < |a| ==> s[k] == a[k] && a[k] in a;
    assert forall k :: 0 <= k < |b| ==> s[k] == b[k] && b[k] in b;
    assert a == s[..|a|] && b == s[..|b|];
    assert x == s[|a| + 1..] && y == s[|b| + 1..];
  }

  /** Keys tell notices apart exactly as the fields do, given no NUL in kind and peer. */
  lemma KeyIdentifies(a: Notice, b: Notice)
    requires Separable(a) && Separable(b)
    ensures Key(a) == Key(b) <==> Same(a, b)
  {
    if Key(a) == Key(b) {
      var x, y := a.peer + [NUL] + a.msg, b.peer + [NUL] + b.msg;
      assert Key(a) == a.kind + [NUL] + x && Key(b) == b.kind + [NUL] + y;
      PrefixUpToNul(a.kind, x, b.kind, y);
      PrefixUpToNul(a.peer, a.msg, b.peer, b.msg);
    }
  }

  /** And every notice with a NUL in its kind or peer shares its key with a different one. */
  lemma NulMakesKeysCollide(n: Notice)
    requires !Separable(n)
    ensures exists m: Notice :: Key(m) == Key(n) && !Same(m, n)
  {
    if i :| 0 <= i < |n.kind| && n.kind[i] == NUL {
      var a, b := n.kind[..i], n.kind[i + 1..];
      var m := n.(kind := a, peer := b, msg := n.peer + [NUL] + n.msg);
      assert n.kind == a + [NUL] + b;
      assert Key(m) == Key(n) && m.kind != n.kind;
    } else {
      var i :| 0 <= i < |n.peer| && n.peer[i] == NUL;
      var a, b := n.peer[..i], n.peer[i + 1..];
      var m := n.(peer := a, msg := b + [NUL] + n.msg);
      assert n.peer == a + [NUL] + b;
      assert Key(m) == Key(n) && m.peer != n.peer;
    }
  }

  ghost function Total(ring: seq<Notice>): nat {
    if ring == [] then 0 else Total(ring[..|ring| - 1]) + ring[|ring| - 1].count
  }

  lemma {:induction false} TotalUpdate(ring: seq<Notice>, i: nat, n: Notice)
    requires i < |ring|
    ensures Total(ring[i := n]) == Total(ring) - ring[i].count + n.count
  {
    var last := |ring| - 1;
    if i < last {
      TotalUpdate(ring[..last], i, n);
      assert ring[i := n][..last] == ring[..last][i := n];
    } else {
      assert ring[i := n][..last] == ring[..last];
    }
  }

  lemma TotalAppend(ring: seq<Notice>, n: Notice)
    ensures Total(ring + [n]) == Total(ring) + n.count
  {
    assert (ring + [n])[..|ring|] == ring;
  }

  lemma {:induction false} TotalDrop(ring: seq<Notice>)
    requires ring != []
    ensures Total(ring[1..]) == Total(ring) - ring[0].count
  {
    var last := |ring| - 1;
    if last > 0 {
      TotalDrop(ring[..last]);
      assert ring[1..][..last - 1] == ring[..last][1..];
    }
  }

  /** The ring after one more notice: what linear search would do. */
  ghost predicate Added(before: seq<Notice>, n: Notice, after: seq<Notice>) {
    if exists i :: 0 <= i < |before| && Same(before[i], n) then
      exists i :: 0 <= i < |before| && Same(before[i], n)
        && after == before[i := before[i].(count := before[i].count + 1, at := n.at)]
    else
      var longer := before + [n.(count := 1)];
      after == if |longer| > MAX_NOTICES then longer[1..] else longer
  }

  lemma AddedRepeat(before: seq<Notice>, n: Notice, i: nat, after: seq<Notice>)
    requires i < |before| && Same(before[i], n) && after == before[i := before[i].(count := before[i].count + 1, at := n.at)]
    ensures Added(before, n, after)
  {
  }

  lemma AddedAppend(before: seq<Notice>, n: Notice, after: seq<Notice>)
    requires forall i :: 0 <= i < |before| ==> !Same(before[i], n)
    requires var longer := before + [n.(count := 1)];
      after == if |longer| > MAX_NOTICES then longer[1..] else longer
    ensures Added(before, n, after)
  {
  }

  ghost predicate KeysDiffer(ring: seq<Notice>) {
    forall i, j :: 0 <= i < j < |ring| ==> Key(ring[i]) != Key(ring[j])
  }

  /** The index maps each entry's key to its position and nothing else: entries are distinct. */
  ghost predicate IndexOf(ring: seq<Notice>, index: map<string, nat>) {
    && (forall i :: 0 <= i < |ring| ==> Separable(ring[i]) && Key(ring[i]) in index && index[Key(ring[i])] == i)
    && (forall k :: k in index ==> index[k] < |ring| && Key(ring[index[k]]) == k)
  }

  lemma IndexGrows(ring: seq<Notice>, index: map<string, nat>, n: Notice)
    requires IndexOf(ring, index) && Separable(n) && forall i :: 0 <= i < |ring| ==> Key(ring[i]) != Key(n)
    ensures IndexOf(ring + [n], index[Key(n) := |ring|])
  {
    hide Key, Separable;
  }

  class NoticeLog {
    var ring: seq<Notice>
    var index: map<string, nat>

    /** How often `Add` has been called, the counts of the notices dropped since, and whether
        every notice so far kept NUL out of its kind and peer. */
    ghost var adds: nat
    ghost var evicted: nat
    ghost var separable: bool

    ghost predicate Indexed()
      reads this
    {
      IndexOf(ring, index)
    }

    ghost predicate Valid()
      reads this
    {
      |ring| <= MAX_NOTICES && Total(ring) + evicted == adds && (separable ==> Indexed())
    }

    constructor ()
      ensures Valid() && ring == [] && separable && adds == 0
    {
      ring, index, adds, evicted, separable := [], map[], 0, 0, true;
    }

    /** Whatever is added, the ring stays bounded and no call goes uncounted. While no kind or
        peer holds a NUL, the result is that of linear search: a repeat raises its entry's count,
        anything else is appended, the oldest entry making room. */
    method Add(n: Notice)
      requires Valid()
      modifies this
      ensures Valid() && adds == old(adds) + 1
      ensures separable == (old(separable) && Separable(n))
      ensures separable ==> Added(old(ring), n, ring)
      ensures |old(ring)| <= |ring| <= 200
    {
      hide Key, Total, Added;
      separable := separable && Separable(n);
      var key := Key(n);
      if key in index && index[key] < |ring| && ring[index[key]].kind == n.kind {
        var i := index[key];
        Repeat(i, n);
        if separable {
          KeyIdentifies(old(ring)[i], n);
          AddedRepeat(old(ring), n, i, ring);
        }
        return;
      }
      if separable {
        forall i | 0 <= i < |ring|
          ensures !Same(ring[i], n) && Key(ring[i]) != key
        {
          KeyIdentifies(ring[i], n);
        }
      }
      Append(n);
      if separable {
        AddedAppend(old(ring), n, ring);
      }
    }

    /** Collapse a repeat into its entry. */
    method Repeat(i: nat, n: Notice)
      requires Valid() && i < |ring|
      modifies `ring, `adds
      ensures Valid() && adds == old(adds) + 1 && |ring| == |old(ring)|
      ensures ring == old(ring)[i := old(ring)[i].(count := old(ring)[i].count + 1, at := n.at)]
    {
      hide Total;
      var again := ring[i].(count := ring[i].count + 1, at := n.at);
      assert Key(again) == Key(ring[i]);
      TotalUpdate(ring, i, again);
      ring := ring[i := again];
      adds := adds + 1;
    }

    /** A notice with no entry yet. */
    method Append(n: Notice)
      requires Valid()
      requires separable ==> Separable(n) && forall i :: 0 <= i < |ring| ==> Key(ring[i]) != Key(n)
      modifies `ring, `index, `adds, `evicted
      ensures Valid() && adds == old(adds) + 1 && |ring| >= |old(ring)|
      ensures var longer := old(ring) + [n.(count := 1)];
        ring == if |longer| > MAX_NOTICES then longer[1..] else longer
    {
      var first := n.(count := 1);
      assert Key(first) == Key(n) && Separable(first) == Separable(n);
      TotalAppend(ring, first);
      if separable {
        IndexGrows(ring, index, first);
      }
      hide Key, Total, IndexOf;
      ring := ring + [first];
      index := index[Key(n) := |ring| - 1];
      adds := adds + 1;
      DropOldest();
    }

    /** An indexed ring holds no key twice, nor does what is left of it when the oldest goes. */
    lemma DistinctTail()
      requires Indexed() && ring != []
      ensures KeysDiffer(ring[1..]) && forall i :: 0 <= i < |ring[1..]| ==> Separable(ring[1..][i])
    {
      hide Key;
      assert forall i :: 0 <= i < |ring| ==> index[Key(ring[i])] == i;
    }

    /** Back to the limit, oldest first. */
    method DropOldest()
      requires |ring| <= MAX_NOTICES + 1 && Total(ring) + evicted == adds && (separable ==> Indexed())
      modifies `ring, `index, `evicted
      ensures Valid()
      ensures ring == if |old(ring)| > MAX_NOTICES then old(ring)[1..] else old(ring)
    {
      hide Key, Total, KeysDiffer, Separable;
      if |ring| > MAX_NOTICES {
        TotalDrop(ring);
        evicted := evicted + ring[0].count;
        if separable {
          DistinctTail();
        }
        ring := ring[|ring| - MAX_NOTICES..];
        RebuildIndex();
      }
    }

    /** The ring shifted underneath the index: make it anew. */
    method RebuildIndex()
      modifies `index
      ensures KeysDiffer(ring) && (forall i :: 0 <= i < |ring| ==> Separable(ring[i])) ==> Indexed()
    {
      index := map[];
      for i := 0 to |ring|
        invariant KeysDiffer(ring) ==> forall j :: 0 <= j < i ==> Key(ring[j]) in index && index[Key(ring[j])] == j
        invariant forall k :: k in index ==> index[k] < i && Key(ring[index[k]]) == k
      {
        index := index[Key(ring[i]) := i];
      }
    }

    /** The notices newest first; the log itself is untouched. */
    method Snapshot() returns (out: seq<Notice>)
      requires Valid()
      ensures |out| == |ring| && forall k :: 0 <= k < |out| ==> out[k] == ring[|ring| - 1 - k]
    {
      var a := new Notice[|ring|](i requires 0 <= i < |ring| reads this => ring[i]);
      assert a[..] == ring;
      NewestFirst(a);
      out := a[..];
    }
  }

  /** Reverse in place. */
  method NewestFirst(a: array<Notice>)
    modifies a
    ensures forall k :: 0 <= k < a.Length ==> a[k] == old(a[a.Length - 1 - k])
  {
    ghost var s := a[..];
    var i, j := 0, a.Length - 1;
    while i < j
      invariant 0 <= i && j == a.Length - 1 - i && i <= j + 1
      invariant forall k :: i <= k <= j ==> a[k] == s[k]
      invariant forall k :: 0 <= k < i ==> a[k] == s[a.Length - 1 - k]
      invariant forall k :: j < k < a.Length ==> a[k] == s[a.Length - 1 - k]
    {
      a[i], a[j] := a[j], a[i];
      i, j := i + 1, j - 1;
    }
  }
}
