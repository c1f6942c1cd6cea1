/** The Post record and the single table that holds Posts, keyed by post_uuid.
    The table is abstract: a map from key to Post plus the order in which a
    scan returns the keys. What the storage service answers (whether a save or
    a delete succeeds, where the first scan page ends) is passed in. */
module Posts {

  datatype Option<T> = None | Some(value: T)

  type Uuid = string

  /** Seconds since the epoch, as the table keeps created_at. */
  type EpochTime = int

  /** One row: the hash key, two string attributes that may be nil, and the creation time. */
  datatype Post = Post(postUuid: Uuid, title: Option<string>, body: Option<string>, createdAt: EpochTime)

  /** The keys of a sequence, as a set. */
  function KeySet(keys: seq<Uuid>): set<Uuid>
  {
    set k | k in keys
  }

  /** No key occurs twice. */
  predicate NoDuplicates(keys: seq<Uuid>)
  {
    keys == [] || (keys[0] !in keys[1..] && NoDuplicates(keys[1..]))
  }

  /** Appending a key that does not occur keeps the keys distinct. */
  lemma {:induction false} NoDuplicatesSnoc(keys: seq<Uuid>, x: Uuid)
    requires NoDuplicates(keys) && x !in keys
    ensures NoDuplicates(keys + [x])
  {
    if keys != [] {
      assert (keys + [x])[1..] == keys[1..] + [x];
      NoDuplicatesSnoc(keys[1..], x);
    }
  }

  /** `keys` without the members of `gone`, in the same order. */
  function Drop(keys: seq<Uuid>, gone: set<Uuid>): (r: seq<Uuid>)
    ensures forall k :: k in r <==> k in keys && k !in gone
    ensures NoDuplicates(keys) ==> NoDuplicates(r)
  {
    if keys == [] then []
    else if keys[0] in gone then Drop(keys[1..], gone)
    else
      var rest := Drop(keys[1..], gone);
      assert ([keys[0]] + rest)[1..] == rest;
      [keys[0]] + rest
  }

  /** The whole table at one moment. */
  datatype Store = Store(items: map<Uuid, Post>, order: seq<Uuid>) {

    /** Every post sits under its own post_uuid, and a scan lists each key exactly once. */
    predicate Valid()
    {
      && (forall k :: k in items ==> items[k].postUuid == k)
      && NoDuplicates(order)
      && (forall k :: k in items ==> k in order)
      && (forall k :: k in order ==> k in items)
    }

    /** Every post, in scan order. */
    function Scan(): (r: seq<Post>)
      requires Valid()
      ensures |r| == |order|
      ensures forall i :: 0 <= i < |r| ==> r[i] == items[order[i]] && r[i].postUuid == order[i]
      ensures forall p :: p in r <==> p.postUuid in items && items[p.postUuid] == p
    {
      seq(|order|, i requires 0 <= i < |order| => items[order[i]])
    }

    /** Lookup by hash key; None when no post has that key. */
    function Find(id: Uuid): (r: Option<Post>)
      ensures r.Some? <==> id in items
      ensures r.Some? ==> r.value == items[id]
      ensures Valid() && r.Some? ==> r.value.postUuid == id
    {
      if id in items then Some(items[id]) else None
    }
  }

  /** The table after a successful save of the new record `p`: the save of a
      new record only succeeds under a key that is not taken, so the post is
      added under its own key and every other entry stays as it was. */
  function Put(s: Store, p: Post): (r: Store)
    requires s.Valid()
    requires p.postUuid !in s.items
    ensures r.Valid()
    ensures r.Find(p.postUuid) == Some(p)
    ensures forall k :: k != p.postUuid ==> r.Find(k) == s.Find(k)
    ensures |r.items| == |s.items| + 1
    ensures r.order == s.order + [p.postUuid]
  {
    assert forall k :: k in s.order + [p.postUuid] <==> k in s.order || k == p.postUuid;
    NoDuplicatesSnoc(s.order, p.postUuid);
    Store(s.items[p.postUuid := p], s.order + [p.postUuid])
  }

  /** The table after a successful delete of the post under `key`. */
  function Remove(s: Store, key: Uuid): (r: Store)
    requires s.Valid()
    ensures r.Valid()
    ensures r.Find(key) == None
    ensures forall k :: k != key ==> r.Find(k) == s.Find(k)
  {
    Store(s.items - {key}, Drop(s.order, {key}))
  }

  /** The table after the posts under `keys` were deleted one after another, first to last. */
  function RemoveAll(s: Store, keys: seq<Uuid>): (r: Store)
    requires s.Valid()
    ensures r.Valid()
    decreases |keys|
  {
    if keys == [] then s
    else Remove(RemoveAll(s, keys[..|keys| - 1]), keys[|keys| - 1])
  }

  lemma {:induction false} DropTwice(keys: seq<Uuid>, a: set<Uuid>, b: set<Uuid>)
    ensures Drop(Drop(keys, a), b) == Drop(keys, a + b)
  {
    if keys != [] {
      DropTwice(keys[1..], a, b);
    }
  }

  /** Deleting keys one by one leaves exactly the other entries, in their scan order. */
  lemma {:induction false} RemoveAllIsDifference(s: Store, keys: seq<Uuid>)
    requires s.Valid()
    ensures RemoveAll(s, keys) == Store(s.items - KeySet(keys), Drop(s.order, KeySet(keys)))
    decreases |keys|
  {
    if keys != [] {
      var init, last := keys[..|keys| - 1], keys[|keys| - 1];
      RemoveAllIsDifference(s, init);
      var mid := RemoveAll(s, init);
      assert RemoveAll(s, keys) == Remove(mid, last);
      assert keys == init + [last];
      KeySetSnoc(init, last);
      DropTwice(s.order, KeySet(init), {last});
      MapMinusTwice(s.items, KeySet(init), {last});
    } else {
      assert KeySet(keys) == {} && s.items - {} == s.items;
      DropNothing(s.order, {});
    }
  }

  lemma KeySetSnoc(init: seq<Uuid>, last: Uuid)
    ensures KeySet(init + [last]) == KeySet(init) + {last}
  {
  }

  lemma MapMinusTwice(m: map<Uuid, Post>, a: set<Uuid>, b: set<Uuid>)
    ensures (m - a) - b == m - (a + b)
  {
  }

  /** In a scan without repeats, dropping the first k keys leaves the rest of the scan. */
  lemma {:induction false} DropScannedPrefix(keys: seq<Uuid>, k: nat)
    requires NoDuplicates(keys)
    requires k <= |keys|
    ensures Drop(keys, KeySet(keys[..k])) == keys[k..]
  {
    if k == 0 {
      assert KeySet(keys[..k]) == {};
      DropNothing(keys, {});
    } else {
      assert keys[0] in KeySet(keys[..k]);
      assert KeySet(keys[1..][..k - 1]) == KeySet(keys[..k]) - {keys[0]};
      DropScannedPrefix(keys[1..], k - 1);
      DropIrrelevant(keys[1..], KeySet(keys[..k]), KeySet(keys[1..][..k - 1]));
    }
  }

  /** After the first k scanned posts are deleted, the table holds the rest, scanned in the same order. */
  lemma RemainingAfterPrefix(s: Store, k: nat)
    requires s.Valid()
    requires k <= |s.order|
    ensures RemoveAll(s, s.order[..k]) == Store(s.items - KeySet(s.order[..k]), s.order[k..])
  {
    RemoveAllIsDifference(s, s.order[..k]);
    DropScannedPrefix(s.order, k);
  }

  /** Deleting the next scanned post moves the boundary between deleted and remaining posts by one. */
  lemma DeleteNextScanned(s: Store, k: nat)
    requires s.Valid()
    requires k < |s.order|
    ensures Store(s.items - KeySet(s.order[..k]), s.order[k..]).Valid()
    ensures Remove(Store(s.items - KeySet(s.order[..k]), s.order[k..]), s.order[k])
         == Store(s.items - KeySet(s.order[..k + 1]), s.order[k + 1..])
  {
    RemainingAfterPrefix(s, k);
    RemainingAfterPrefix(s, k + 1);
    assert s.order[..k + 1][..k] == s.order[..k];
  }

  /** Once the first k scanned posts are deleted, exactly they are absent; every later one keeps its post. */
  lemma PrefixGone(s: Store, k: nat)
    requires s.Valid()
    requires k <= |s.order|
    ensures forall i :: 0 <= i < k ==> s.order[i] !in s.items - KeySet(s.order[..k])
    ensures forall i :: k <= i < |s.order| ==>
      s.order[i] in s.items - KeySet(s.order[..k]) && (s.items - KeySet(s.order[..k]))[s.order[i]] == s.items[s.order[i]]
  {
    forall i | 0 <= i < k
      ensures s.order[i] in KeySet(s.order[..k])
    {
      assert s.order[i] == s.order[..k][i];
    }
    DropScannedPrefix(s.order, k);
    forall i | k <= i < |s.order|
      ensures s.order[i] !in KeySet(s.order[..k])
    {
      assert s.order[i] == s.order[k..][i - k];
    }
  }

  /** Dropping keys that do not occur changes nothing. */
  lemma {:induction false} DropNothing(keys: seq<Uuid>, gone: set<Uuid>)
    requires forall k :: k in keys ==> k !in gone
    ensures Drop(keys, gone) == keys
  {
    if keys != [] {
      DropNothing(keys[1..], gone);
    }
  }

  /** Only the members of `gone` that occur in the sequence matter to Drop. */
  lemma {:induction false} DropIrrelevant(keys: seq<Uuid>, a: set<Uuid>, b: set<Uuid>)
    requires forall k :: k in keys ==> (k in a <==> k in b)
    ensures Drop(keys, a) == Drop(keys, b)
  {
    if keys != [] {
      DropIrrelevant(keys[1..], a, b);
    }
  }

  /** A scan without repeats has as many keys as the set of its keys. */
  lemma {:induction false} NoDuplicatesCount(keys: seq<Uuid>)
    requires NoDuplicates(keys)
    ensures |KeySet(keys)| == |keys|
  {
    if keys != [] {
      NoDuplicatesCount(keys[1..]);
      assert keys[0] !in keys[1..];
      assert KeySet(keys) == KeySet(keys[1..]) + {keys[0]};
    }
  }

  /** The table service as the handlers see it. A class, because saving and
      deleting change it in place. */
  class PostTable {
    var items: map<Uuid, Post>
    var order: seq<Uuid>

    function Snapshot(): Store
      reads this
    {
      Store(items, order)
    }

    predicate Valid()
      reads this
    {
      Snapshot().Valid()
    }

    constructor (initial: Store)
      requires initial.Valid()
      ensures Valid() && Snapshot() == initial
    {
      items := initial.items;
      order := initial.order;
    }

    /** Posts#save of a new record; `succeeds` is the service's answer when the
        key is free. A save onto a key that is taken fails and changes nothing. */
    method Save(p: Post, succeeds: bool) returns (saved: bool)
      requires Valid()
      modifies this
      ensures Valid()
      ensures saved <==> succeeds && p.postUuid !in old(items)
      ensures Snapshot() == if saved then Put(old(Snapshot()), p) else old(Snapshot())
    {
      saved := succeeds && p.postUuid !in items;
      if saved {
        var s := Put(Snapshot(), p);
        items, order := s.items, s.order;
      }
    }

    /** Posts#delete! of a scanned post; `succeeds` is false when the service raises. */
    method Delete(p: Post, succeeds: bool) returns (deleted: bool)
      requires Valid()
      modifies this
      ensures Valid() && deleted == succeeds
      ensures Snapshot() == if deleted then Remove(old(Snapshot()), p.postUuid) else old(Snapshot())
    {
      deleted := succeeds;
      if deleted {
        var s := Remove(Snapshot(), p.postUuid);
        items, order := s.items, s.order;
      }
    }
  }
}
