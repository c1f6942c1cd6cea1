/** The queue handler: a batch of queue records, each expected to carry the
    command DELETE_ALL, which deletes every scanned post one after another.
    A failing delete, or any other command, raises and ends the batch; what
    was deleted before stays deleted. Whether the service's delete of a post
    raises is passed in as the set of post uuids whose delete fails. */
module EventHandlers {
  import opened Posts

  const DeleteAllCommand := "DELETE_ALL"
  const UnsupportedPrefix := "Unsupported queue command: "

  /** A queue record; its body may be absent. */
  datatype QueueRecord = QueueRecord(body: Option<string>)

  /** What a record raises: the handler's own error for an unknown command, or
      the service's error from the delete of the named post, re-raised as is. */
  datatype Failure = Unsupported(message: string) | DeleteFailed(postUuid: Uuid)

  datatype Outcome = Completed | Raised(failure: Failure)

  /** The table afterwards, the posts whose delete was issued (in issue order), and how it ended. */
  datatype Step = Step(store: Store, deletes: seq<Uuid>, outcome: Outcome)

  /** The error text for a record that is not DELETE_ALL; an absent body reads as empty text. */
  function UnsupportedMessage(body: Option<string>): (m: string)
    ensures |UnsupportedPrefix| <= |m| && m[..|UnsupportedPrefix|] == UnsupportedPrefix
    ensures body.Some? ==> m[|UnsupportedPrefix|..] == body.value
    ensures body.None? ==> m == UnsupportedPrefix
  {
    UnsupportedPrefix + (if body.Some? then body.value else "")
  }

  /** The position of the first scanned key whose delete raises, or |keys| when none does. */
  function FirstFailing(keys: seq<Uuid>, failing: set<Uuid>): (k: nat)
    ensures k <= |keys|
    ensures forall i :: 0 <= i < k ==> keys[i] !in failing
    ensures k < |keys| ==> keys[k] in failing
  {
    if keys == [] || keys[0] in failing then 0
    else 1 + FirstFailing(keys[1..], failing)
  }

  /** Any position that no earlier failing key precedes, and that holds a failing key or the end, is the first failing one. */
  lemma FirstFailingIs(keys: seq<Uuid>, failing: set<Uuid>, k: nat)
    requires k <= |keys|
    requires forall i :: 0 <= i < k ==> keys[i] !in failing
    requires k < |keys| ==> keys[k] in failing
    ensures FirstFailing(keys, failing) == k
  {
  }

  /** One DELETE_ALL: delete the scanned posts in scan order until a delete raises. */
  function DeleteAll(s: Store, failing: set<Uuid>): (st: Step)
    requires s.Valid()
    ensures st.store.Valid()
  {
    var k := FirstFailing(s.order, failing);
    if k < |s.order| then Step(RemoveAll(s, s.order[..k]), s.order[..k + 1], Raised(DeleteFailed(s.order[k])))
    else Step(RemoveAll(s, s.order), s.order, Completed)
  }

  /** DELETE_ALL when the first failing delete is at position k (k = |scan| when none fails):
      the first k scanned posts are gone and the rest remain, in scan order; a failing delete is issued last. */
  lemma DeleteAllFailsAt(s: Store, failing: set<Uuid>, k: nat)
    requires s.Valid()
    requires k <= |s.order|
    requires forall i :: 0 <= i < k ==> s.order[i] !in failing
    requires k < |s.order| ==> s.order[k] in failing
    ensures k < |s.order| ==> (DeleteAll(s, failing)
      == Step(Store(s.items - KeySet(s.order[..k]), s.order[k..]), s.order[..k + 1], Raised(DeleteFailed(s.order[k]))))
    ensures k == |s.order| ==> (DeleteAll(s, failing)
      == Step(Store(s.items - KeySet(s.order[..k]), s.order[k..]), s.order, Completed))
  {
    FirstFailingIs(s.order, failing, k);
    RemainingAfterPrefix(s, k);
    assert s.order[..|s.order|] == s.order;
  }

  /** One record: DELETE_ALL runs the bulk delete; anything else raises before any delete. */
  function HandleRecord(s: Store, record: QueueRecord, failing: set<Uuid>): (st: Step)
    requires s.Valid()
    ensures st.store.Valid()
    ensures record.body != Some(DeleteAllCommand) ==>
      st == Step(s, [], Raised(Unsupported(UnsupportedMessage(record.body))))
  {
    if record.body == Some(DeleteAllCommand) then DeleteAll(s, failing)
    else Step(s, [], Raised(Unsupported(UnsupportedMessage(record.body))))
  }

  /** Continue after `first` with the remaining records, unless `first` raised. */
  function Then(first: Step, records: seq<QueueRecord>, failing: set<Uuid>): (st: Step)
    requires first.store.Valid()
    ensures st.store.Valid()
    ensures first.outcome.Raised? ==> st == first
    ensures |first.deletes| <= |st.deletes| && st.deletes[..|first.deletes|] == first.deletes
    decreases |records|, 2
  {
    if first.outcome.Raised? then first
    else
      var rest := HandleBatch(first.store, records, failing);
      assert (first.deletes + rest.deletes)[..|first.deletes|] == first.deletes;
      Step(rest.store, first.deletes + rest.deletes, rest.outcome)
  }

  /** A batch: records in order, stopping at the first that raises. */
  function HandleBatch(s: Store, records: seq<QueueRecord>, failing: set<Uuid>): (st: Step)
    requires s.Valid()
    ensures st.store.Valid()
    decreases |records|, 1
  {
    if records == [] then Step(s, [], Completed)
    else Then(HandleRecord(s, records[0], failing), records[1..], failing)
  }

  /** Handling the first of the remaining records and continuing is continuing with all of them. */
  lemma ThenFirstRecord(s: Store, done: seq<Uuid>, records: seq<QueueRecord>, failing: set<Uuid>)
    requires s.Valid()
    requires records != []
    ensures var head := HandleRecord(s, records[0], failing);
      Then(Step(s, done, Completed), records, failing) == Then(Step(head.store, done + head.deletes, head.outcome), records[1..], failing)
  {
    var head := HandleRecord(s, records[0], failing);
    assert HandleBatch(s, records, failing) == Then(head, records[1..], failing);
    if !head.outcome.Raised? {
      var rest := HandleBatch(head.store, records[1..], failing);
      assert done + (head.deletes + rest.deletes) == (done + head.deletes) + rest.deletes;
    }
  }

  /** A completed DELETE_ALL issued one delete per scanned post, in scan order,
      and left the table empty. */
  lemma DeleteAllCompletedEmptiesTable(s: Store, failing: set<Uuid>)
    requires s.Valid()
    requires DeleteAll(s, failing).outcome == Completed
    ensures DeleteAll(s, failing).deletes == s.order
    ensures |DeleteAll(s, failing).deletes| == |s.items|
    ensures DeleteAll(s, failing).store == Store(map[], [])
  {
    RemoveAllIsDifference(s, s.order);
    assert s.items.Keys == KeySet(s.order);
    assert s.items - KeySet(s.order) == map[];
    assert Drop(s.order, KeySet(s.order)) == [] by {
      DropScannedPrefix(s.order, |s.order|);
      assert s.order[..|s.order|] == s.order;
    }
    NoDuplicatesCount(s.order);
  }

  /** A DELETE_ALL whose k-th delete raises: the first k scanned posts are gone,
      deletes were issued for exactly the first k + 1, and every later post is untouched. */
  lemma DeleteAllStopsAtFailure(s: Store, failing: set<Uuid>)
    requires s.Valid()
    requires DeleteAll(s, failing).outcome.Raised?
    ensures var k := FirstFailing(s.order, failing);
      var st := DeleteAll(s, failing);
      && k < |s.order|
      && st.outcome == Raised(DeleteFailed(s.order[k]))
      && s.order[k] in failing
      && st.deletes == s.order[..k + 1]
      && st.store.order == s.order[k..]
      && (forall i :: 0 <= i < k ==> s.order[i] !in st.store.items)
      && (forall i :: k <= i < |s.order| ==> s.order[i] in st.store.items && st.store.items[s.order[i]] == s.items[s.order[i]])
  {
    var k := FirstFailing(s.order, failing);
    DeleteAllFailsAt(s, failing, k);
    PrefixGone(s, k);
  }

  /** Running two parts of a batch one after the other is running the whole
      batch: a raise in the first part means the second is never processed. */
  lemma {:induction false} BatchSplit(s: Store, first: seq<QueueRecord>, second: seq<QueueRecord>, failing: set<Uuid>)
    requires s.Valid()
    ensures HandleBatch(s, first + second, failing) == Then(HandleBatch(s, first, failing), second, failing)
    decreases |first|
  {
    if first == [] {
      assert first + second == second;
    } else {
      assert (first + second)[0] == first[0];
      assert (first + second)[1..] == first[1..] + second;
      var head := HandleRecord(s, first[0], failing);
      if !head.outcome.Raised? {
        BatchSplit(head.store, first[1..], second, failing);
        var a := HandleBatch(head.store, first[1..], failing);
        if !a.outcome.Raised? {
          var b := HandleBatch(a.store, second, failing);
          assert head.deletes + (a.deletes + b.deletes) == (head.deletes + a.deletes) + b.deletes;
        }
      }
    }
  }

  /** When record i is the first to raise, the batch ends with record i: its
      effect and those before it stand, and no later record is processed. */
  lemma FirstRaiseEndsBatch(s: Store, records: seq<QueueRecord>, i: nat, failing: set<Uuid>)
    requires s.Valid()
    requires i < |records|
    requires HandleBatch(s, records[..i], failing).outcome == Completed
    requires HandleRecord(HandleBatch(s, records[..i], failing).store, records[i], failing).outcome.Raised?
    ensures var before := HandleBatch(s, records[..i], failing);
      var last := HandleRecord(before.store, records[i], failing);
      HandleBatch(s, records, failing) == Step(last.store, before.deletes + last.deletes, last.outcome)
  {
    var before := HandleBatch(s, records[..i], failing);
    assert records == records[..i] + records[i..];
    BatchSplit(s, records[..i], records[i..], failing);
    assert records[i..][0] == records[i];
    var last := HandleRecord(before.store, records[i], failing);
    assert HandleBatch(before.store, records[i..], failing) == last;
  }

  /** A batch that completes held only DELETE_ALL records; if it held any, the table ends empty. */
  lemma {:induction false} CompletedBatchEmptiesTable(s: Store, records: seq<QueueRecord>, failing: set<Uuid>)
    requires s.Valid()
    requires HandleBatch(s, records, failing).outcome == Completed
    ensures forall i :: 0 <= i < |records| ==> records[i].body == Some(DeleteAllCommand)
    ensures records != [] ==> HandleBatch(s, records, failing).store == Store(map[], [])
    decreases |records|
  {
    if records != [] {
      var head := HandleRecord(s, records[0], failing);
      DeleteAllCompletedEmptiesTable(s, failing);
      CompletedBatchEmptiesTable(head.store, records[1..], failing);
      if records[1..] == [] {
        assert HandleBatch(s, records, failing).store == head.store;
      }
      forall i | 0 <= i < |records|
        ensures records[i].body == Some(DeleteAllCommand)
      {
        if i > 0 {
          assert records[i] == records[1..][i - 1];
        }
      }
    }
  }

  /** An empty batch returns normally and leaves the table as it was. */
  lemma EmptyBatchChangesNothing(s: Store, failing: set<Uuid>)
    requires s.Valid()
    ensures HandleBatch(s, [], failing) == Step(s, [], Completed)
  {
  }

  /** The bulk delete of one DELETE_ALL record, over the scan taken when it
      starts. Returns how many posts it deleted, and the error of the delete
      that raised, if one did; `calls` are the posts whose delete was issued.
      Afterwards the first `count` scanned posts are gone and the others remain,
      still scanned in order; DeleteAllFailsAt ties this to DeleteAll. */
  method DeleteScanned(table: PostTable, failing: set<Uuid>)
    returns (count: nat, failure: Option<Failure>, ghost calls: seq<Uuid>)
    requires table.Valid()
    modifies table
    ensures table.Valid()
    ensures count <= |old(table.order)|
    ensures forall i :: 0 <= i < count ==> old(table.order)[i] !in failing
    ensures failure.Some? <==> count < |old(table.order)|
    ensures failure.Some? ==> old(table.order)[count] in failing && failure.value == DeleteFailed(old(table.order)[count])
    ensures table.Snapshot() == Store(old(table.items) - KeySet(old(table.order)[..count]), old(table.order)[count..])
    ensures calls == if failure.Some? then old(table.order)[..count + 1] else old(table.order)
  {
    var scan := table.Snapshot();
    ghost var scanned := scan.order;
    count, calls := 0, [];
    while count < |scan.order|
      invariant count <= |scanned|
      invariant forall i :: 0 <= i < count ==> scanned[i] !in failing
      invariant table.Valid()
      invariant table.Snapshot() == Store(scan.items - KeySet(scanned[..count]), scanned[count..])
      invariant calls == scanned[..count]
    {
      var deleted := DeleteNext(table, scan, count, failing);
      PrefixSnoc(scanned, count);
      calls := calls + [scanned[count]];
      if !deleted {
        failure := Some(DeleteFailed(scan.order[count]));
        return;
      }
      count := count + 1;
    }
    failure := None;
  }

  /** A prefix one longer is the prefix plus the next key. */
  lemma PrefixSnoc(keys: seq<Uuid>, n: nat)
    requires n < |keys|
    ensures keys[..n + 1] == keys[..n] + [keys[n]]
  {
  }

  /** The delete of the next scanned post, when the posts before it in the scan are gone. */
  method DeleteNext(table: PostTable, scan: Store, count: nat, failing: set<Uuid>) returns (deleted: bool)
    requires scan.Valid() && count < |scan.order|
    requires table.Snapshot() == Store(scan.items - KeySet(scan.order[..count]), scan.order[count..])
    modifies table
    ensures deleted == (scan.order[count] !in failing)
    ensures table.Valid()
    ensures table.Snapshot() == if deleted
      then Store(scan.items - KeySet(scan.order[..count + 1]), scan.order[count + 1..])
      else old(table.Snapshot())
  {
    var post := scan.items[scan.order[count]];
    DeleteNextScanned(scan, count);
    deleted := table.Delete(post, post.postUuid !in failing);
  }

  /** delete_all_posts: handle the records in order; the first raise ends the batch. */
  method DeleteAllPosts(table: PostTable, records: seq<QueueRecord>, failing: set<Uuid>)
    returns (outcome: Outcome, ghost calls: seq<Uuid>)
    requires table.Valid()
    modifies table
    ensures table.Valid()
    ensures Step(table.Snapshot(), calls, outcome) == HandleBatch(old(table.Snapshot()), records, failing)
  {
    ghost var s0 := table.Snapshot();
    calls := [];
    var i := 0;
    while i < |records|
      invariant i <= |records|
      invariant table.Valid()
      invariant HandleBatch(s0, records, failing) == Then(Step(table.Snapshot(), calls, Completed), records[i..], failing)
    {
      assert records[i..][0] == records[i] && records[i..][1..] == records[i + 1..];
      ThenFirstRecord(table.Snapshot(), calls, records[i..], failing);
      if records[i].body == Some(DeleteAllCommand) {
        ghost var before := table.Snapshot();
        var count, failure, deleted := DeleteScanned(table, failing);
        DeleteAllFailsAt(before, failing, count);
        calls := calls + deleted;
        if failure.Some? {
          return Raised(failure.value), calls;
        }
      } else {
        return Raised(Unsupported(UnsupportedMessage(records[i].body))), calls;
      }
      i := i + 1;
    }
    outcome := Completed;
  }

  /** One DELETE_ALL record over three posts deletes each once, in scan order, and returns normally. */
  lemma DeleteAllOverThreePosts(a: Post, b: Post, c: Post)
    requires a.postUuid != b.postUuid && a.postUuid != c.postUuid && b.postUuid != c.postUuid
    ensures var s := Store(map[a.postUuid := a, b.postUuid := b, c.postUuid := c], [a.postUuid, b.postUuid, c.postUuid]);
      s.Valid() &&
      HandleBatch(s, [QueueRecord(Some(DeleteAllCommand))], {}) == Step(Store(map[], []), s.order, Completed)
  {
    var s := Store(map[a.postUuid := a, b.postUuid := b, c.postUuid := c], [a.postUuid, b.postUuid, c.postUuid]);
    ThreePostsValid(a, b, c);
    var record := QueueRecord(Some(DeleteAllCommand));
    var st := DeleteAll(s, {});
    assert FirstFailing(s.order, {}) == |s.order|;
    DeleteAllCompletedEmptiesTable(s, {});
    assert [record][1..] == [];
    assert HandleBatch(s, [record], {}) == Then(st, [], {});
    assert st.deletes + [] == st.deletes;
  }

  /** A table of three posts under distinct keys, scanned in that order, is valid. */
  lemma ThreePostsValid(a: Post, b: Post, c: Post)
    requires a.postUuid != b.postUuid && a.postUuid != c.postUuid && b.postUuid != c.postUuid
    ensures Store(map[a.postUuid := a, b.postUuid := b, c.postUuid := c], [a.postUuid, b.postUuid, c.postUuid]).Valid()
  {
    var order := [a.postUuid, b.postUuid, c.postUuid];
    assert order[1..][1..] == [c.postUuid] && NoDuplicates([c.postUuid]);
  }

  /** A BAD_MESSAGE record raises with the body in the message and issues no delete. */
  lemma BadMessageRaises(s: Store, failing: set<Uuid>)
    requires s.Valid()
    ensures HandleBatch(s, [QueueRecord(Some("BAD_MESSAGE"))], failing)
      == Step(s, [], Raised(Unsupported("Unsupported queue command: BAD_MESSAGE")))
  {
    var record := QueueRecord(Some("BAD_MESSAGE"));
    assert "BAD_MESSAGE" != DeleteAllCommand by { assert "BAD_MESSAGE"[0] != DeleteAllCommand[0]; }
    assert UnsupportedMessage(record.body) == "Unsupported queue command: BAD_MESSAGE";
    assert HandleBatch(s, [record], failing) == Then(HandleRecord(s, record, failing), [], failing);
  }
}
