/** The emulated process's file-descriptor bookkeeping: the table from
    target to host descriptors (FDConv) and the deferred unlinking of files
    that are still open (DelayUnlinker). */
module VirtualSys {
  import opened Wrappers

  /** FDConv::InvalidFD. */
  const InvalidFD: int := -1

  /** The initial table size. */
  const InitialFDs: nat := 8

  /** t grown to size entries with InvalidFD; never shrunk. */
  function Extended(t: seq<int>, size: nat): (r: seq<int>)
    ensures |r| == if size > |t| then size else |t|
    ensures r[..|t|] == t
    ensures forall j :: |t| <= j < |r| ==> r[j] == InvalidFD
  {
    if size > |t| then t + seq(size - |t|, _ => InvalidFD) else t
  }

  /** AddMap as written: a target fd at or beyond the end doubles the table
      once, then writes at targetFD; None stands for the write past the end
      of the vector when doubling is not enough. */
  function AddMapAsWritten(t: seq<int>, targetFD: int, hostFD: int): (r: Option<seq<int>>)
    ensures r.Some? ==> |r.value| >= |t|
  {
    if targetFD < 0 || hostFD < 0 then Some(t)
    else
      var t1 := if targetFD >= |t| then Extended(t, 2 * |t|) else t;
      if targetFD < |t1| then Some(t1[targetFD := hostFD]) else None
  }

  /** Descriptor 20 on the initial eight-entry table is written past the
      end of the table as written. */
  lemma AddMapPastEndAsWritten()
    ensures AddMapAsWritten(seq(InitialFDs, _ => InvalidFD), 20, 3).None?
  {
    var t := seq(InitialFDs, _ => InvalidFD);
    assert |Extended(t, 2 * |t|)| == 16;
  }

  /** RemoveMap as written: only a negative fd is refused before the table is
      read at targetFD; None stands for the read past the end. */
  function RemoveMapAsWritten(t: seq<int>, targetFD: int): (r: Option<(bool, seq<int>)>)
    ensures r.Some? && r.value.0 ==> 0 <= targetFD < |t| && r.value.1 == t[targetFD := InvalidFD]
  {
    if targetFD < 0 then Some((false, t))
    else if targetFD >= |t| then None
    else if t[targetFD] == InvalidFD then Some((false, t))
    else Some((true, t[targetFD := InvalidFD]))
  }

  /** Removing descriptor 8 from the eight-entry table passes the guard and
      reads past the end as written. */
  lemma RemoveMapPastEndAsWritten()
    ensures RemoveMapAsWritten(seq(InitialFDs, _ => InvalidFD), 8).None?
  {
  }

  /** FDConv: the table from target fds to host fds. */
  class FDConv {
    var table: seq<int>

    /** The table never shrinks below its initial size and holds host fds
        or InvalidFD. */
    ghost predicate Valid()
      reads this
    {
      |table| >= InitialFDs && forall j :: 0 <= j < |table| ==> table[j] >= InvalidFD
    }

    constructor ()
      ensures Valid() && table == seq(InitialFDs, _ => InvalidFD)
    {
      table := seq(InitialFDs, _ => InvalidFD);
    }

    /** TargetToHost: the host fd of a target fd inside the table, else
        InvalidFD. */
    function TargetToHost(targetFD: int): (r: int)
      reads this
      requires Valid()
      ensures r >= InvalidFD
      ensures r != InvalidFD ==> 0 <= targetFD < |table| && table[targetFD] == r
      ensures 0 <= targetFD < |table| ==> r == table[targetFD]
    {
      if targetFD < 0 then InvalidFD
      else if targetFD < |table| then table[targetFD]
      else InvalidFD
    }

    /** HostToTarget: the lowest target fd mapped to a host fd, or InvalidFD. */
    method HostToTarget(hostFD: int) returns (r: int)
      ensures r == InvalidFD <==> hostFD < 0 || hostFD !in table
      ensures r != InvalidFD ==>
        (0 <= r < |table| && table[r] == hostFD && forall j :: 0 <= j < r ==> table[j] != hostFD)
    {
      if hostFD < 0 {
        return InvalidFD;
      }
      var i := 0;
      while i < |table|
        invariant 0 <= i <= |table|
        invariant forall j :: 0 <= j < i ==> table[j] != hostFD
      {
        if table[i] == hostFD {
          return i;
        }
        i := i + 1;
      }
      return InvalidFD;
    }

    /** ExtendFDMap(size): grows the table to size entries; never shrinks it. */
    method ExtendFDMap(size: nat)
      modifies this
      ensures table == Extended(old(table), size)
    {
      if size > |table| {
        table := table + seq(size - |table|, _ => InvalidFD);
      }
    }

    /** AddMap: refuses negative fds; otherwise maps targetFD to hostFD,
        growing the table by doubling, or further when doubling does not
        reach targetFD. No other target fd changes. */
    method AddMap(targetFD: int, hostFD: int) returns (ok: bool)
      requires Valid()
      modifies this
      ensures Valid()
      ensures ok <==> targetFD >= 0 && hostFD >= 0
      ensures !ok ==> table == old(table)
      ensures ok ==>
        (TargetToHost(targetFD) == hostFD && |table| >= |old(table)| &&
         forall j :: 0 <= j < |table| && j != targetFD ==>
           table[j] == (if j < |old(table)| then old(table)[j] else InvalidFD))
    {
      if targetFD < 0 || hostFD < 0 {
        return false;
      }
      if targetFD >= |table| {
        var size := if targetFD + 1 > 2 * |table| then targetFD + 1 else 2 * |table|;
        ExtendFDMap(size);
      }
      table := table[targetFD := hostFD];
      return true;
    }

    /** RemoveMap: an fd outside the table or without a host fd is refused;
        otherwise its entry becomes InvalidFD. */
    method RemoveMap(targetFD: int) returns (ok: bool)
      requires Valid()
      modifies this
      ensures Valid()
      ensures ok <==> old(TargetToHost(targetFD)) != InvalidFD
      ensures !ok ==> table == old(table)
      ensures ok ==> table == old(table)[targetFD := InvalidFD] && TargetToHost(targetFD) == InvalidFD
    {
      if targetFD < 0 || targetFD >= |table| {
        return false;
      }
      if table[targetFD] == InvalidFD {
        return false;
      }
      table := table[targetFD := InvalidFD];
      return true;
    }

    /** GetFirstFreeFD: the lowest target fd without a host fd; a full table
        is doubled and its old size returned. */
    method GetFirstFreeFD() returns (r: nat)
      requires Valid()
      modifies this
      ensures Valid()
      ensures r < |table| && table[r] == InvalidFD
      ensures forall j :: 0 <= j < r ==> table[j] != InvalidFD
      ensures InvalidFD in old(table) ==> table == old(table)
      ensures InvalidFD !in old(table) ==> r == |old(table)| && table == Extended(old(table), 2 * |old(table)|)
    {
      var i := 0;
      while i < |table|
        invariant 0 <= i <= |table|
        invariant forall j :: 0 <= j < i ==> table[j] != InvalidFD
      {
        if table[i] == InvalidFD {
          return i;
        }
        i := i + 1;
      }
      r := |table|;
      ExtendFDMap(2 * |table|);
    }
  }

  /** The list without the first occurrence of p. */
  function RemoveFirst(l: seq<string>, p: string): (r: seq<string>)
    ensures p in l ==> |r| == |l| - 1
    ensures p !in l ==> r == l
    ensures forall q :: q in r ==> q in l
  {
    if l == [] then []
    else if l[0] == p then l[1..]
    else (assert l == [l[0]] + l[1..]; [l[0]] + RemoveFirst(l[1..], p))
  }

  /** Removing the first occurrence, at index i, cuts out l[i]. */
  lemma {:induction false} RemoveFirstAt(l: seq<string>, p: string, i: nat)
    requires i < |l| && l[i] == p && forall j :: 0 <= j < i ==> l[j] != p
    ensures RemoveFirst(l, p) == l[..i] + l[i + 1..]
  {
    if i > 0 {
      RemoveFirstAt(l[1..], p, i - 1);
      assert l[1..][..i - 1] == l[1..i] && l[1..][i..] == l[i + 1..];
      assert l[..i] == [l[0]] + l[1..i];
    }
  }

  /** No path occurs twice. */
  ghost predicate NoDuplicates(l: seq<string>)
  {
    forall i, j :: 0 <= i < j < |l| ==> l[i] != l[j]
  }

  /** Removing what was just appended to a list without it gives the list
      back. */
  lemma {:induction false} RemoveAfterAppend(l: seq<string>, p: string)
    requires p !in l
    ensures RemoveFirst(l + [p], p) == l
  {
    if l != [] {
      assert (l + [p])[1..] == l[1..] + [p];
      RemoveAfterAppend(l[1..], p);
    }
  }

  /** From a list without duplicates, the path is gone after RemoveFirst. */
  lemma {:induction false} RemoveFirstGone(l: seq<string>, p: string)
    requires NoDuplicates(l)
    ensures p !in RemoveFirst(l, p)
  {
    if l != [] {
      if l[0] == p {
        forall j | 0 <= j < |l[1..]| ensures l[1..][j] != p {
          assert l[1..][j] == l[j + 1];
        }
      } else {
        assert NoDuplicates(l[1..]) by {
          forall i, j | 0 <= i < j < |l[1..]| ensures l[1..][i] != l[1..][j] {
            assert l[1..][i] == l[i + 1] && l[1..][j] == l[j + 1];
          }
        }
        RemoveFirstGone(l[1..], p);
      }
    }
  }

  /** DelayUnlinker: the path each target fd was opened with, and the paths
      whose unlinking waits for their last descriptor to close. */
  class DelayUnlinker {
    var paths: map<int, string>
    var unlinkList: seq<string>

    ghost predicate Valid()
      reads this
    {
      NoDuplicates(unlinkList)
    }

    constructor ()
      ensures Valid() && paths == map[] && unlinkList == []
    {
      paths, unlinkList := map[], [];
    }

    /** The path of fd as operator[] reads it: "" when absent. */
    function PathOf(fd: int): string
      reads this
    {
      if fd in paths then paths[fd] else ""
    }

    /** AddMap: records the path of a non-negative fd. */
    method AddMap(targetFD: int, path: string) returns (ok: bool)
      modifies this
      ensures unlinkList == old(unlinkList)
      ensures ok <==> targetFD >= 0
      ensures paths == if ok then old(paths)[targetFD := path] else old(paths)
    {
      if targetFD < 0 {
        return false;
      }
      paths := paths[targetFD := path];
      return true;
    }

    /** RemoveMap: the fd's path becomes "" (the entry stays). */
    method RemoveMap(targetFD: int) returns (ok: bool)
      modifies this
      ensures unlinkList == old(unlinkList)
      ensures ok <==> targetFD >= 0
      ensures paths == if ok then old(paths)[targetFD := ""] else old(paths)
    {
      if targetFD < 0 {
        return false;
      }
      paths := paths[targetFD := ""];
      return true;
    }

    /** GetMapPath: the fd's path; reading an absent fd inserts it with "",
        and an empty path fails the assertion. */
    method GetMapPath(targetFD: int) returns (r: Result<string>)
      modifies this
      ensures unlinkList == old(unlinkList)
      ensures paths == old(paths)[targetFD := old(PathOf(targetFD))]
      ensures r.Ok? <==> old(PathOf(targetFD)) != ""
      ensures r.Ok? ==> r.value == old(PathOf(targetFD))
    {
      var p := PathOf(targetFD);
      paths := paths[targetFD := p];
      if p == "" {
        return Fail("Invalid map path.");
      }
      return Ok(p);
    }

    /** AddUnlinkPath: appends a path that is not pending yet. */
    method AddUnlinkPath(path: string) returns (ok: bool)
      requires Valid()
      modifies this
      ensures Valid() && paths == old(paths)
      ensures ok <==> path !in old(unlinkList)
      ensures unlinkList == if ok then old(unlinkList) + [path] else old(unlinkList)
    {
      var i := 0;
      while i < |unlinkList|
        invariant 0 <= i <= |unlinkList|
        invariant forall j :: 0 <= j < i ==> unlinkList[j] != path
      {
        if unlinkList[i] == path {
          return false;
        }
        i := i + 1;
      }
      unlinkList := unlinkList + [path];
      return true;
    }

    /** IfUnlinkable: no other fd has the fd's path and the path is pending
        (reading the fd's path inserts it with "" when absent). */
    method IfUnlinkable(targetFD: int) returns (r: bool)
      modifies this
      ensures unlinkList == old(unlinkList)
      ensures paths == old(paths)[targetFD := old(PathOf(targetFD))]
      ensures r <==>
        ((forall k :: k in paths && k != targetFD ==> paths[k] != paths[targetFD]) &&
         paths[targetFD] in unlinkList)
    {
      var target := PathOf(targetFD);
      paths := paths[targetFD := target];
      r := Unshared(paths, targetFD, target);
      if !r {
        return false;
      }
      r := Pending(unlinkList, target);
    }

    /** No key other than fd maps to path. */
    static method Unshared(m: map<int, string>, fd: int, path: string) returns (r: bool)
      ensures r <==> forall k :: k in m && k != fd ==> m[k] != path
    {
      var keys := m.Keys;
      while keys != {}
        invariant keys <= m.Keys
        invariant forall k :: k in m && k !in keys && k != fd ==> m[k] != path
        decreases |keys|
      {
        assert exists y :: y in keys by {
          if forall y :: y !in keys {
            assert false;
          }
        }
        var key :| key in keys;
        if key != fd && m[key] == path {
          return false;
        }
        keys := keys - {key};
      }
      return true;
    }

    /** The path occurs in the list (every element is examined). */
    static method Pending(l: seq<string>, path: string) returns (r: bool)
      ensures r <==> path in l
    {
      r := false;
      var j := 0;
      while j < |l|
        invariant 0 <= j <= |l|
        invariant r <==> path in l[..j]
      {
        assert l[..j + 1] == l[..j] + [l[j]];
        if l[j] == path {
          r := true;
        }
        j := j + 1;
      }
      assert l[..j] == l;
    }

    /** RemoveUnlinkPath: removes the first occurrence; a path that is not
        pending is refused. */
    method RemoveUnlinkPath(path: string) returns (ok: bool)
      requires Valid()
      modifies this
      ensures Valid() && paths == old(paths)
      ensures ok <==> path in old(unlinkList)
      ensures unlinkList == RemoveFirst(old(unlinkList), path) && path !in unlinkList
    {
      var i := 0;
      while i < |unlinkList|
        invariant 0 <= i <= |unlinkList|
        invariant forall j :: 0 <= j < i ==> unlinkList[j] != path
      {
        if unlinkList[i] == path {
          RemoveFirstGone(unlinkList, path);
          RemoveFirstAt(unlinkList, path, i);
          unlinkList := unlinkList[..i] + unlinkList[i + 1..];
          return true;
        }
        i := i + 1;
      }
      return false;
    }
  }
}
