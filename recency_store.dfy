/**
 * The server's recency store (`FileManager` in server/server.py): a dictionary
 * from arrival timestamp to filename. Python dictionaries keep insertion order,
 * so the dictionary is modelled as an association list with distinct keys in
 * which assigning to an existing key keeps that key's position.
 */
module RecencyStore {
  import opened Common

  /** An arrival record: (timestamp, filename). Timestamps are integer clock ticks. */
  type Entry = (int, string)

  /** The set of timestamps recorded in `e`. */
  function Keys(e: seq<Entry>): set<int>
  {
    set i | 0 <= i < |e| :: e[i].0
  }

  /** No timestamp occurs twice, as in a dictionary. */
  ghost predicate DistinctKeys(e: seq<Entry>)
  {
    forall i, j :: 0 <= i < j < |e| ==> e[i].0 != e[j].0
  }

  /** Timestamps strictly increase along the list. */
  ghost predicate IncreasingKeys(e: seq<Entry>)
  {
    forall i, j :: 0 <= i < j < |e| ==> e[i].0 < e[j].0
  }

  /** The filenames of `e`, in order. */
  function Names(e: seq<Entry>): (r: seq<string>)
    ensures |r| == |e|
  {
    if e == [] then [] else [e[0].1] + Names(e[1..])
  }

  /** `d[k] = v` on an insertion-ordered dictionary. */
  function Put(e: seq<Entry>, k: int, v: string): (r: seq<Entry>)
    ensures |e| <= |r| <= |e| + 1
    ensures Lookup(r, k) == Some(v)
  {
    if e == [] then [(k, v)]
    else if e[0].0 == k then [(k, v)] + e[1..]
    else [e[0]] + Put(e[1..], k, v)
  }

  /** `d.get(k)`. */
  function Lookup(e: seq<Entry>, k: int): Option<string>
  {
    if e == [] then None
    else if e[0].0 == k then Some(e[0].1)
    else Lookup(e[1..], k)
  }

  /** `[filename for ts, filename in d.items() if ts > since]`. */
  function Selected(e: seq<Entry>, since: int): (r: seq<string>)
    ensures |r| <= |e|
    ensures forall n :: n in r ==> n in Names(e)
  {
    if e == [] then []
    else (if e[0].0 > since then [e[0].1] else []) + Selected(e[1..], since)
  }

  /** `a` is obtained from `b` by deleting elements (order is kept). */
  predicate IsSubsequence(a: seq<string>, b: seq<string>)
  {
    if a == [] then true
    else if b == [] then false
    else (a[0] == b[0] && IsSubsequence(a[1..], b[1..])) || IsSubsequence(a, b[1..])
  }

  /** The state after recording each arrival of `arrivals` in turn. */
  function Replay(e: seq<Entry>, arrivals: seq<Entry>): seq<Entry>
    decreases arrivals
  {
    if arrivals == [] then e else Replay(Put(e, arrivals[0].0, arrivals[0].1), arrivals[1..])
  }

  // ---------------------------------------------------------------------------
  // Assignment to a key

  /** At a fresh timestamp, assignment appends one entry and leaves the rest alone. */
  lemma {:induction false} PutFresh(e: seq<Entry>, k: int, v: string)
    requires k !in Keys(e)
    ensures Put(e, k, v) == e + [(k, v)]
  {
    if e != [] {
      assert e[0].0 in Keys(e);
      assert Keys(e[1..]) <= Keys(e) by {
        forall x | x in Keys(e[1..]) ensures x in Keys(e) {
          var i :| 0 <= i < |e[1..]| && e[1..][i].0 == x;
          assert e[i + 1].0 == x;
        }
      }
      PutFresh(e[1..], k, v);
      assert e == [e[0]] + e[1..];
    }
  }

  /** At an existing timestamp, assignment replaces that entry's filename in place. */
  lemma {:induction false} PutExisting(e: seq<Entry>, i: nat, v: string)
    requires DistinctKeys(e)
    requires i < |e|
    ensures Put(e, e[i].0, v) == e[i := (e[i].0, v)]
  {
    if i > 0 {
      assert e[0].0 != e[i].0;
      assert DistinctKeys(e[1..]) by {
        forall a, b | 0 <= a < b < |e[1..]| ensures e[1..][a].0 != e[1..][b].0 {
          assert e[1..][a] == e[a + 1] && e[1..][b] == e[b + 1];
        }
      }
      PutExisting(e[1..], i - 1, v);
      assert e[1..][i - 1] == e[i];
      assert e[i := (e[i].0, v)] == [e[0]] + e[1..][i - 1 := (e[i].0, v)];
    }
  }

  /** Assignment keeps the keys distinct and adds exactly its own key. */
  lemma {:induction false} PutKeys(e: seq<Entry>, k: int, v: string)
    requires DistinctKeys(e)
    ensures DistinctKeys(Put(e, k, v))
    ensures Keys(Put(e, k, v)) == Keys(e) + {k}
  {
    if k in Keys(e) {
      var i :| 0 <= i < |e| && e[i].0 == k;
      PutExisting(e, i, v);
      var e' := e[i := (k, v)];
      assert forall j :: 0 <= j < |e| ==> e'[j].0 == e[j].0;
      assert Keys(e') == Keys(e) by {
        forall x ensures x in Keys(e') <==> x in Keys(e) {
          if x in Keys(e') { var j :| 0 <= j < |e'| && e'[j].0 == x; assert e[j].0 == x; }
          if x in Keys(e) { var j :| 0 <= j < |e| && e[j].0 == x; assert e'[j].0 == x; }
        }
      }
    } else {
      PutFresh(e, k, v);
      var e' := e + [(k, v)];
      assert Keys(e') == Keys(e) + {k} by {
        forall x ensures x in Keys(e') <==> x in Keys(e) + {k} {
          if x in Keys(e') { var j :| 0 <= j < |e'| && e'[j].0 == x; if j < |e| { assert e[j].0 == x; } }
          if x in Keys(e) { var j :| 0 <= j < |e| && e[j].0 == x; assert e'[j].0 == x; }
          if x == k { assert e'[|e|].0 == x; }
        }
      }
      forall a, b | 0 <= a < b < |e'| ensures e'[a].0 != e'[b].0 {
        if b == |e| { assert e[a].0 in Keys(e); }
      }
    }
  }

  /** After assignment the key maps to the new filename and every other key is unchanged. */
  lemma {:induction false} PutLookup(e: seq<Entry>, k: int, v: string, k': int)
    ensures Lookup(Put(e, k, v), k') == if k' == k then Some(v) else Lookup(e, k')
  {
    if e != [] && e[0].0 != k {
      PutLookup(e[1..], k, v, k');
    }
  }

  // ---------------------------------------------------------------------------
  // Discovery

  /** Discovery distributes over concatenation, keeping order. */
  lemma {:induction false} SelectedAppend(a: seq<Entry>, b: seq<Entry>, since: int)
    ensures Selected(a + b, since) == Selected(a, since) + Selected(b, since)
  {
    if a == [] {
      assert a + b == b;
    } else {
      assert (a + b)[0] == a[0];
      assert (a + b)[1..] == a[1..] + b;
      SelectedAppend(a[1..], b, since);
    }
  }

  /** A name is discovered exactly when some record of it is strictly later than the cutoff. */
  lemma {:induction false} SelectedMembers(e: seq<Entry>, since: int, n: string)
    ensures n in Selected(e, since) <==> exists i :: 0 <= i < |e| && e[i].0 > since && e[i].1 == n
  {
    if e != [] {
      SelectedMembers(e[1..], since, n);
      if n in Selected(e[1..], since) {
        var i :| 0 <= i < |e[1..]| && e[1..][i].0 > since && e[1..][i].1 == n;
        assert e[i + 1] == e[1..][i];
      }
      if exists i :: 0 <= i < |e| && e[i].0 > since && e[i].1 == n {
        var i :| 0 <= i < |e| && e[i].0 > since && e[i].1 == n;
        if i > 0 { assert e[1..][i - 1] == e[i]; }
      }
    }
  }

  /** A later cutoff yields a subsequence of the result of an earlier cutoff. */
  lemma {:induction false} SelectedMonotone(e: seq<Entry>, t1: int, t2: int)
    requires t1 <= t2
    ensures IsSubsequence(Selected(e, t2), Selected(e, t1))
  {
    if e != [] {
      SelectedMonotone(e[1..], t1, t2);
      var a, b := Selected(e[1..], t2), Selected(e[1..], t1);
      if e[0].0 > t2 {
        assert Selected(e, t2) == [e[0].1] + a && Selected(e, t1) == [e[0].1] + b;
        assert ([e[0].1] + a)[1..] == a && ([e[0].1] + b)[1..] == b;
      } else if e[0].0 > t1 {
        assert Selected(e, t2) == a && Selected(e, t1) == [e[0].1] + b;
        assert ([e[0].1] + b)[1..] == b;
        SubsequenceCons(a, b, e[0].1);
      } else {
        assert Selected(e, t2) == a && Selected(e, t1) == b;
      }
    }
  }

  lemma {:induction false} SubsequenceCons(a: seq<string>, b: seq<string>, x: string)
    requires IsSubsequence(a, b)
    ensures IsSubsequence(a, [x] + b)
  {
    assert ([x] + b)[1..] == b;
  }

  /** Every element of a subsequence is an element of the whole. */
  lemma {:induction false} SubsequenceMembers(a: seq<string>, b: seq<string>, n: string)
    requires IsSubsequence(a, b)
    requires n in a
    ensures n in b
  {
    if a[0] == b[0] && IsSubsequence(a[1..], b[1..]) {
      if n != a[0] { SubsequenceMembers(a[1..], b[1..], n); }
    } else {
      SubsequenceMembers(a, b[1..], n);
    }
  }

  /** Discovery is monotone: a name found with a later cutoff is found with an earlier one. */
  lemma {:induction false} DiscoveryMonotone(e: seq<Entry>, t1: int, t2: int, n: string)
    requires t1 <= t2
    requires n in Selected(e, t2)
    ensures n in Selected(e, t1)
  {
    SelectedMonotone(e, t1, t2);
    SubsequenceMembers(Selected(e, t2), Selected(e, t1), n);
  }

  /**
   * Recording `n` at time `t` does not change discovery with any cutoff `s >= t`:
   * the arrival is not strictly later than `s`, and an entry it replaces was not either.
   */
  lemma {:induction false} ArrivalHiddenAtItsTime(e: seq<Entry>, t: int, n: string, s: int)
    requires s >= t
    ensures Selected(Put(e, t, n), s) == Selected(e, s)
  {
    if e != [] && e[0].0 != t {
      ArrivalHiddenAtItsTime(e[1..], t, n, s);
    }
  }

  /** Recording `n` at time `t` makes `n` discoverable with every cutoff before `t`. */
  lemma {:induction false} ArrivalVisibleBefore(e: seq<Entry>, t: int, n: string, since: int)
    requires since < t
    ensures n in Selected(Put(e, t, n), since)
  {
    if e != [] && e[0].0 != t {
      ArrivalVisibleBefore(e[1..], t, n, since);
    }
  }

  /** At a fresh timestamp the arrival is appended to every discovery window it falls in. */
  lemma {:induction false} FreshArrivalSelected(e: seq<Entry>, t: int, n: string, since: int)
    requires t !in Keys(e)
    ensures Selected(Put(e, t, n), since) == Selected(e, since) + (if t > since then [n] else [])
  {
    PutFresh(e, t, n);
    SelectedAppend(e, [(t, n)], since);
  }

  /**
   * At an existing timestamp the earlier filename is silently dropped: in a
   * window that covers the timestamp, one occurrence of the old name is
   * replaced by the new name.
   */
  lemma {:induction false} OverwriteDropsPrevious(e: seq<Entry>, i: nat, n: string, since: int)
    requires DistinctKeys(e)
    requires i < |e|
    requires e[i].0 > since
    ensures multiset(Selected(Put(e, e[i].0, n), since))
         == multiset(Selected(e, since)) - multiset{e[i].1} + multiset{n}
  {
    PutExisting(e, i, n);
    var e' := e[i := (e[i].0, n)];
    assert e == e[..i] + [e[i]] + e[i + 1..];
    assert e' == e[..i] + [(e[i].0, n)] + e[i + 1..];
    SelectedAppend(e[..i] + [e[i]], e[i + 1..], since);
    SelectedAppend(e[..i], [e[i]], since);
    SelectedAppend(e[..i] + [(e[i].0, n)], e[i + 1..], since);
    SelectedAppend(e[..i], [(e[i].0, n)], since);
  }

  /** With strictly increasing clock readings every arrival gets a fresh key and is appended. */
  lemma {:induction false} ReplayIncreasing(e: seq<Entry>, arrivals: seq<Entry>)
    requires IncreasingKeys(e + arrivals)
    ensures Replay(e, arrivals) == e + arrivals
    decreases arrivals
  {
    if arrivals != [] {
      var a := arrivals[0];
      forall i | 0 <= i < |e| ensures e[i].0 < a.0 {
        assert (e + arrivals)[i] == e[i] && (e + arrivals)[|e|] == a;
      }
      PutFresh(e, a.0, a.1);
      assert (e + [a]) + arrivals[1..] == e + arrivals;
      ReplayIncreasing(e + [a], arrivals[1..]);
    }
  }

  /**
   * Over strictly increasing timestamps, discovery returns a suffix of the
   * arrival order: all records after position `k`, and only those, are later
   * than the cutoff.
   */
  lemma {:induction false} IncreasingWindow(e: seq<Entry>, since: int) returns (k: nat)
    requires IncreasingKeys(e)
    ensures k <= |e|
    ensures Selected(e, since) == Names(e[k..])
    ensures forall i :: 0 <= i < k ==> e[i].0 <= since
    ensures forall i :: k <= i < |e| ==> e[i].0 > since
  {
    if e == [] {
      k := 0;
    } else if e[0].0 > since {
      k := 0;
      AllLaterSelected(e, since);
    } else {
      assert IncreasingKeys(e[1..]) by {
        forall a, b | 0 <= a < b < |e[1..]| ensures e[1..][a].0 < e[1..][b].0 {
          assert e[1..][a] == e[a + 1] && e[1..][b] == e[b + 1];
        }
      }
      var k' := IncreasingWindow(e[1..], since);
      k := k' + 1;
      assert e[k..] == e[1..][k'..];
      forall i | 0 <= i < k ensures e[i].0 <= since {
        if i > 0 { assert e[i] == e[1..][i - 1]; }
      }
      forall i | k <= i < |e| ensures e[i].0 > since {
        assert e[i] == e[1..][i - 1];
      }
    }
  }

  lemma {:induction false} AllLaterSelected(e: seq<Entry>, since: int)
    requires forall i :: 0 <= i < |e| ==> e[i].0 > since
    ensures Selected(e, since) == Names(e)
  {
    if e != [] {
      assert e[0].0 > since;
      AllLaterSelected(e[1..], since);
    }
  }

  /** The filenames of all entries, in the order of their recording, with strictly increasing clocks. */
  lemma {:induction false} ArrivalOrder(arrivals: seq<Entry>, since: int) returns (k: nat)
    requires IncreasingKeys(arrivals)
    ensures k <= |arrivals|
    ensures Selected(Replay([], arrivals), since) == Names(arrivals[k..])
    ensures forall i :: 0 <= i < |arrivals| ==> (arrivals[i].0 > since <==> k <= i)
  {
    assert [] + arrivals == arrivals;
    ReplayIncreasing([], arrivals);
    k := IncreasingWindow(arrivals, since);
  }

  // ---------------------------------------------------------------------------
  // The store object

  /** `FileManager`: `files` plays the role of `self.files`. */
  class FileManager {
    var files: seq<Entry>

    ghost predicate Valid()
      reads this
    {
      DistinctKeys(files)
    }

    /** `FileManager()`: an empty dictionary. */
    constructor ()
      ensures Valid()
      ensures files == []
    {
      files := [];
    }

    /** `add_file`: `self.files[now] = filename`, with the clock reading `now` supplied by the caller. */
    method AddFile(filename: string, now: int)
      requires Valid()
      modifies this
      ensures Valid()
      ensures files == Put(old(files), now, filename)
      ensures Keys(files) == Keys(old(files)) + {now}
      ensures now !in Keys(old(files)) ==> files == old(files) + [(now, filename)]
      ensures forall i :: 0 <= i < |old(files)| && old(files)[i].0 == now ==>
                files == old(files)[i := (now, filename)]
      ensures forall k :: Lookup(files, k) == if k == now then Some(filename) else Lookup(old(files), k)
    {
      ghost var before := files;
      PutKeys(files, now, filename);
      if now !in Keys(files) {
        PutFresh(files, now, filename);
      }
      forall i | 0 <= i < |before| && before[i].0 == now
        ensures Put(before, now, filename) == before[i := (now, filename)]
      {
        PutExisting(before, i, filename);
      }
      forall k ensures Lookup(Put(before, now, filename), k) == if k == now then Some(filename) else Lookup(before, k) {
        PutLookup(before, now, filename, k);
      }
      files := Put(files, now, filename);
    }

    /** `get_new_files`: the filenames recorded strictly after `since`, in dictionary order. */
    function GetNewFiles(since: int): (r: seq<string>)
      reads this
      ensures |r| <= |files|
      ensures forall n :: n in r <==> exists i :: 0 <= i < |files| && files[i].0 > since && files[i].1 == n
    {
      forall n ensures n in Selected(files, since) <==> exists i :: 0 <= i < |files| && files[i].0 > since && files[i].1 == n {
        SelectedMembers(files, since, n);
      }
      Selected(files, since)
    }
  }
}
