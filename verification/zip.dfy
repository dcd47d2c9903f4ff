/** A zip archive as the loader sees it: the members in central-directory
    order, each a name and its bytes. Container decoding is not modelled. */
module Zip {
  import opened Results

  newtype byte = x: int | 0 <= x < 256

  type Bytes = seq<byte>

  /** One archive member. */
  datatype Entry = Entry(name: string, data: Bytes)

  /** What is found at the archive path: nothing, something that is not a
      zip container, or a readable archive with its members. */
  datatype ArchiveFile = Absent | Unreadable | Readable(entries: seq<Entry>)

  /** Member names in archive order (`infolist()`). */
  function Names(a: seq<Entry>): (r: seq<string>)
    ensures |r| == |a| && forall i :: 0 <= i < |a| ==> r[i] == a[i].name
  {
    seq(|a|, i requires 0 <= i < |a| => a[i].name)
  }

  predicate DistinctNames(a: seq<Entry>) {
    forall i, j :: 0 <= i < j < |a| ==> a[i].name != a[j].name
  }

  /** Reading a member by name (`open`, `read`): a zip reader indexes members
      by name, so with repeated names it is the last entry that is read. */
  function Read(a: seq<Entry>, name: string): (r: Option<Bytes>)
    ensures r.None? <==> name !in Names(a)
    ensures r.Some? ==>
      exists i :: 0 <= i < |a| && a[i] == Entry(name, r.value)
                  && forall j :: i < j < |a| ==> a[j].name != name
  {
    if |a| == 0 then None
    else if a[|a| - 1].name == name then Some(a[|a| - 1].data)
    else
      var r := Read(a[..|a| - 1], name);
      assert Names(a) == Names(a[..|a| - 1]) + [a[|a| - 1].name];
      r
  }

  /** When names are distinct, reading a member's name yields that member's
      bytes. */
  lemma ReadOfDistinct(a: seq<Entry>, i: nat)
    requires DistinctNames(a) && i < |a|
    ensures Read(a, a[i].name) == Some(a[i].data)
  {
    assert a[i].name in Names(a);
    var r := Read(a, a[i].name);
    var k :| 0 <= k < |a| && a[k] == Entry(a[i].name, r.value)
             && forall j :: k < j < |a| ==> a[j].name != a[i].name;
    assert k == i;
  }

  /** Item assignment `d[name] = data` on an insertion-ordered dict held as a
      sequence of entries: an existing key keeps its place and takes the new
      value, a new key goes at the end. */
  function Put(d: seq<Entry>, name: string, data: Bytes): (r: seq<Entry>)
    requires DistinctNames(d)
    ensures DistinctNames(r)
    ensures name !in Names(d) ==> r == d + [Entry(name, data)]
    ensures name in Names(d) ==>
      |r| == |d| && forall i :: 0 <= i < |d| ==>
        r[i] == (if d[i].name == name then Entry(name, data) else d[i])
  {
    if name in Names(d) then
      seq(|d|, i requires 0 <= i < |d| => if d[i].name == name then Entry(name, data) else d[i])
    else
      d + [Entry(name, data)]
  }

  /** The raw-member snapshot after the first k listed members: each of them
      assigned, in listing order, the bytes a read of its name returns. */
  function SnapshotPrefix(a: seq<Entry>, k: nat): (r: seq<Entry>)
    requires k <= |a|
    ensures DistinctNames(r)
    decreases k
  {
    if k == 0 then []
    else
      assert a[k - 1].name in Names(a);
      Put(SnapshotPrefix(a, k - 1), a[k - 1].name, Read(a, a[k - 1].name).value)
  }

  /** The `raw_files` dict: every archive member assigned its bytes. */
  function Snapshot(a: seq<Entry>): (r: seq<Entry>)
    ensures DistinctNames(r)
    ensures forall n :: n in Names(r) <==> n in Names(a)
    ensures forall e :: e in r ==> Read(a, e.name) == Some(e.data)
  {
    SnapshotKeys(a, |a|);
    assert a[..|a|] == a;
    SnapshotPrefix(a, |a|)
  }

  /** Assignment keeps every other key and adds the assigned one; every
      entry afterwards is either the assigned one or an entry from before. */
  lemma PutContents(d: seq<Entry>, name: string, data: Bytes)
    requires DistinctNames(d)
    ensures forall n :: n in Names(Put(d, name, data)) <==> n in Names(d) || n == name
    ensures forall e :: e in Put(d, name, data) ==> e == Entry(name, data) || e in d
  {
    var r := Put(d, name, data);
    if name in Names(d) {
      forall n | n in Names(d) || n == name
        ensures n in Names(r)
      {
        var i :| 0 <= i < |d| && d[i].name == (if n in Names(d) then n else name);
        assert r[i].name == d[i].name;
      }
      forall n | n in Names(r)
        ensures n in Names(d) || n == name
      {
        var i :| 0 <= i < |r| && r[i].name == n;
        assert n == d[i].name || n == name;
      }
    } else {
      assert Names(r) == Names(d) + [name];
    }
  }

  lemma NamesOfLongerPrefix(a: seq<Entry>, k: nat)
    requires 0 < k <= |a|
    ensures forall n :: n in Names(a[..k]) <==> n in Names(a[..k - 1]) || n == a[k - 1].name
  {
    assert Names(a[..k]) == Names(a[..k - 1]) + [a[k - 1].name];
  }

  /** The snapshot of a prefix holds exactly the prefix's names, each with the
      bytes a read of the whole archive returns. */
  lemma {:induction false} SnapshotKeys(a: seq<Entry>, k: nat)
    requires k <= |a|
    ensures forall n :: n in Names(SnapshotPrefix(a, k)) <==> n in Names(a[..k])
    ensures forall e :: e in SnapshotPrefix(a, k) ==> Read(a, e.name) == Some(e.data)
  {
    if k > 0 {
      var p := SnapshotPrefix(a, k - 1);
      SnapshotKeys(a, k - 1);
      assert a[k - 1].name in Names(a);
      PutContents(p, a[k - 1].name, Read(a, a[k - 1].name).value);
      NamesOfLongerPrefix(a, k);
    }
  }

  /** With distinct names, no member's name occurs among the names before it. */
  lemma NameIsNew(a: seq<Entry>, k: nat)
    requires DistinctNames(a) && k < |a|
    ensures a[k].name !in Names(a[..k])
  {
    var before := a[..k];
    assert forall j :: 0 <= j < |before| ==> Names(before)[j] == a[j].name;
  }

  /** With distinct names, the snapshot is the archive itself: every member,
      in archive order, with its own bytes. */
  lemma {:induction false} SnapshotOfDistinct(a: seq<Entry>, k: nat)
    requires DistinctNames(a) && k <= |a|
    ensures SnapshotPrefix(a, k) == a[..k]
  {
    if k > 0 {
      SnapshotOfDistinct(a, k - 1);
      var prev := SnapshotPrefix(a, k - 1);
      var name := a[k - 1].name;
      ReadOfDistinct(a, k - 1);
      var data := Read(a, name).value;
      assert SnapshotPrefix(a, k) == Put(prev, name, data);
      NameIsNew(a, k - 1);
      assert Put(prev, name, data) == prev + [Entry(name, data)];
      assert a[..k] == a[..k - 1] + [a[k - 1]];
    }
  }

  lemma SnapshotIsArchive(a: seq<Entry>)
    ensures DistinctNames(a) ==> Snapshot(a) == a
  {
    if DistinctNames(a) {
      SnapshotOfDistinct(a, |a|);
      assert a[..|a|] == a;
    }
  }
}
