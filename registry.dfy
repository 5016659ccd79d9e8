/**
 * `auto_like_tasks`: the running auto-like jobs, keyed by
 * `"{uid}_{server}_{channel_id}"`. A Python dict keeps insertion order, which
 * `list_auto_likes` shows, so the registry is a sequence of entries with
 * distinct keys; a new key goes at the end and `del` closes the gap.
 */
module AutoLikeRegistry {
  import opened Wrappers
  import opened Text
  import opened Regions

  /** The arguments `auto_like_loop` was started with; the task itself is not modelled. */
  datatype Job = Job(uid: string, server: string, channel: nat, owner: nat)

  datatype TaskEntry = TaskEntry(key: string, job: Job)

  function Keys(tasks: seq<TaskEntry>): set<string> {
    set i | 0 <= i < |tasks| :: tasks[i].key
  }

  /** An entry as `auto_like` inserts it: validated arguments under their own key. */
  predicate EntryWellFormed(e: TaskEntry) {
    && ValidUid(e.job.uid)
    && e.job.server in ValidServers
    && e.key == TaskKey(e.job.uid, e.job.server, e.job.channel)
  }

  predicate DistinctKeys(tasks: seq<TaskEntry>) {
    forall i, j :: 0 <= i < j < |tasks| ==> tasks[i].key != tasks[j].key
  }

  /** No key twice, and every entry well formed. */
  predicate RegistryWellFormed(tasks: seq<TaskEntry>) {
    && DistinctKeys(tasks)
    && (forall i :: 0 <= i < |tasks| ==> EntryWellFormed(tasks[i]))
  }

  /** One line of `list_auto_likes`: UID, region with its flag, and the channel id. */
  datatype ListEntry = ListEntry(uid: string, server: string, flag: Flag, channel: nat)

  /** The line `list_auto_likes` should show for a job. */
  function ListLine(job: Job): ListEntry {
    ListEntry(job.uid, job.server, ServerFlag(job.server), job.channel)
  }

  /** The lines `list_auto_likes` should show for the registry, in insertion order. */
  function Listing(tasks: seq<TaskEntry>): (lines: seq<ListEntry>)
    ensures |lines| == |tasks|
    ensures forall k :: 0 <= k < |tasks| ==> lines[k] == ListLine(tasks[k].job)
  {
    if tasks == [] then []
    else Listing(tasks[..|tasks| - 1]) + [ListLine(tasks[|tasks| - 1].job)]
  }

  /**
   * The line `list_auto_likes` builds from a key: `key.rsplit('_', 2)`
   * unpacked into three names, the channel part read with `int`. `None`
   * stands for the `ValueError` either step raises on a malformed key.
   */
  function KeyLine(key: string): Option<ListEntry> {
    var parts := RSplit(key, '_', 2);
    if |parts| == 3 && AllDigits(parts[2]) && parts[2] != []
    then Some(ListEntry(parts[0], parts[1], ServerFlag(parts[1]), DecimalValue(parts[2])))
    else None
  }

  /** Every registered key parses back into the UID, region and channel of its job. */
  lemma KeyLineOfEntry(e: TaskEntry)
    requires EntryWellFormed(e)
    ensures KeyLine(e.key) == Some(ListLine(e.job))
  {
    assert '_' !in e.job.server;
    TaskKeySplit(e.job.uid, e.job.server, e.job.channel);
  }

  /** Parsing the next key of a well-formed registry extends the listing by that entry's line. */
  lemma ListingStep(tasks: seq<TaskEntry>, i: nat)
    requires RegistryWellFormed(tasks) && i < |tasks|
    ensures KeyLine(tasks[i].key).Some?
    ensures Listing(tasks[..i + 1]) == Listing(tasks[..i]) + [KeyLine(tasks[i].key).value]
  {
    KeyLineOfEntry(tasks[i]);
    assert tasks[..i + 1][..i] == tasks[..i];
  }

  /** Where the entry for `key` sits. */
  function IndexOfKey(tasks: seq<TaskEntry>, key: string): (i: nat)
    requires key in Keys(tasks)
    ensures i < |tasks| && tasks[i].key == key
  {
    if tasks[0].key == key then 0
    else
      assert key in Keys(tasks[1..]) by {
        var k :| 0 <= k < |tasks| && tasks[k].key == key;
        assert tasks[1..][k - 1].key == key;
      }
      1 + IndexOfKey(tasks[1..], key)
  }

  /** `del auto_like_tasks[key]` for the entry at index `i`. */
  function RemoveAt(tasks: seq<TaskEntry>, i: nat): seq<TaskEntry>
    requires i < |tasks|
  {
    tasks[..i] + tasks[i + 1..]
  }

  /**
   * In a well-formed registry the key identifies the job: a key is present
   * exactly when a job for that UID, region and channel is, whatever the
   * UID and region a caller spells it with.
   */
  lemma KeyIdentifiesJob(tasks: seq<TaskEntry>, uid: string, server: string, channel: nat, i: nat)
    requires RegistryWellFormed(tasks) && i < |tasks|
    requires tasks[i].key == TaskKey(uid, server, channel)
    ensures tasks[i].job.uid == uid && tasks[i].job.server == server && tasks[i].job.channel == channel
  {
    var job := tasks[i].job;
    assert '_' !in job.uid by {
      forall k | 0 <= k < |job.uid| ensures job.uid[k] != '_' { assert IsDigit(job.uid[k]); }
    }
    TaskKeyInjective(job.uid, job.server, job.channel, uid, server, channel);
  }

  /** Appending an entry under a new key keeps the registry well formed and adds exactly that key. */
  lemma AppendKeepsWellFormed(tasks: seq<TaskEntry>, e: TaskEntry)
    requires RegistryWellFormed(tasks) && EntryWellFormed(e) && e.key !in Keys(tasks)
    ensures RegistryWellFormed(tasks + [e])
    ensures Keys(tasks + [e]) == Keys(tasks) + {e.key}
  {
    var t := tasks + [e];
    forall key | key in Keys(t) ensures key in Keys(tasks) + {e.key} {
      var k :| 0 <= k < |t| && t[k].key == key;
      if k < |tasks| { assert tasks[k].key == key; }
    }
    forall key | key in Keys(tasks) ensures key in Keys(t) {
      var k :| 0 <= k < |tasks| && tasks[k].key == key;
      assert t[k].key == key;
    }
    assert t[|tasks|] == e;
  }

  /** The entries after a removal are the old ones with index `i` skipped. */
  lemma RemoveAtShifts(tasks: seq<TaskEntry>, i: nat)
    requires i < |tasks|
    ensures |RemoveAt(tasks, i)| == |tasks| - 1
    ensures forall k :: 0 <= k < |tasks| - 1 ==> RemoveAt(tasks, i)[k] == tasks[if k < i then k else k + 1]
  {
  }

  /** Removing the entry at `i` keeps the keys distinct and every entry well formed. */
  lemma RemoveKeepsWellFormed(tasks: seq<TaskEntry>, i: nat)
    requires RegistryWellFormed(tasks) && i < |tasks|
    ensures RegistryWellFormed(RemoveAt(tasks, i))
  {
    var r := RemoveAt(tasks, i);
    RemoveAtShifts(tasks, i);
    forall p, q | 0 <= p < q < |r| ensures r[p].key != r[q].key {
      var p' := if p < i then p else p + 1;
      var q' := if q < i then q else q + 1;
      assert r[p] == tasks[p'];
      assert r[q] == tasks[q'];
    }
    forall k | 0 <= k < |r| ensures EntryWellFormed(r[k]) {
      assert r[k] == tasks[if k < i then k else k + 1];
    }
  }

  /** Every key left after removing the entry at `i` was there before, and is not the removed one. */
  lemma RemovedKeysWereThere(tasks: seq<TaskEntry>, i: nat)
    requires DistinctKeys(tasks) && i < |tasks|
    ensures Keys(RemoveAt(tasks, i)) <= Keys(tasks) - {tasks[i].key}
  {
    var r := RemoveAt(tasks, i);
    RemoveAtShifts(tasks, i);
    forall key | key in Keys(r) ensures key in Keys(tasks) - {tasks[i].key} {
      var k :| 0 <= k < |r| && r[k].key == key;
      var k' := if k < i then k else k + 1;
      assert r[k] == tasks[k'];
      assert k' != i;
    }
  }

  /** Every key but the removed one is still there after removing the entry at `i`. */
  lemma OtherKeysStay(tasks: seq<TaskEntry>, i: nat)
    requires i < |tasks|
    ensures Keys(tasks) - {tasks[i].key} <= Keys(RemoveAt(tasks, i))
  {
    var r := RemoveAt(tasks, i);
    RemoveAtShifts(tasks, i);
    forall key | key in Keys(tasks) - {tasks[i].key} ensures key in Keys(r) {
      var k :| 0 <= k < |tasks| && tasks[k].key == key;
      assert r[if k < i then k else k - 1].key == key;
    }
  }

  /** Removing the entry at `i` from a registry with distinct keys drops exactly its key. */
  lemma RemoveDropsKey(tasks: seq<TaskEntry>, i: nat)
    requires DistinctKeys(tasks) && i < |tasks|
    ensures Keys(RemoveAt(tasks, i)) == Keys(tasks) - {tasks[i].key}
  {
    RemovedKeysWereThere(tasks, i);
    OtherKeysStay(tasks, i);
  }

  /**
   * The key of an entry just appended under a fresh key is found at the end,
   * so deleting the entry found under that key gives back the registry as
   * it was.
   */
  lemma RemoveLastUndoesAppend(tasks: seq<TaskEntry>, e: TaskEntry)
    requires e.key !in Keys(tasks)
    ensures e.key in Keys(tasks + [e])
    ensures IndexOfKey(tasks + [e], e.key) == |tasks|
    ensures RemoveAt(tasks + [e], IndexOfKey(tasks + [e], e.key)) == tasks
  {
    var t := tasks + [e];
    assert t[|tasks|].key == e.key;
    assert t[..|tasks|] == tasks;
  }
}
