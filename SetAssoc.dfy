/** shttl's set-associative table: a std_hasher splits a key into offset,
    set index and tag; each set holds way_num lines (tag, value, valid); an
    lru_list replacer picks the victim when a set is full. */
module SetAssoc {
  import opened Wrappers
  import opened Arith
  import opened Lru

  /** One line of the table; the default line is invalid. */
  datatype Line<V> = Line(tag: nat, value: V, valid: bool)

  /** A line id: set index and way. end() is (set_num, 0). */
  datatype Iter = Iter(index: nat, way: nat)

  /** The first way at or after j holding a valid line with this tag. */
  function HitFrom<V>(s: seq<Line<V>>, tag: nat, j: nat): (r: Option<nat>)
    decreases |s| - j
    ensures r.Some? ==> (j <= r.value < |s| && s[r.value].valid && s[r.value].tag == tag &&
      forall k :: j <= k < r.value ==> !(s[k].valid && s[k].tag == tag))
    ensures r.None? ==> forall k :: j <= k < |s| ==> !(s[k].valid && s[k].tag == tag)
  {
    if j >= |s| then None
    else if s[j].valid && s[j].tag == tag then Some(j)
    else HitFrom(s, tag, j + 1)
  }

  /** The first invalid way at or after j. */
  function FreeFrom<V>(s: seq<Line<V>>, j: nat): (r: Option<nat>)
    decreases |s| - j
    ensures r.Some? ==> (j <= r.value < |s| && !s[r.value].valid &&
      forall k :: j <= k < r.value ==> s[k].valid)
    ensures r.None? ==> forall k :: j <= k < |s| ==> s[k].valid
  {
    if j >= |s| then None
    else if !s[j].valid then Some(j)
    else FreeFrom(s, j + 1)
  }

  /** No two valid lines of a set carry the same tag. */
  ghost predicate TagsDistinct<V>(s: seq<Line<V>>)
  {
    forall a, b :: 0 <= a < b < |s| && s[a].valid && s[b].valid ==> s[a].tag != s[b].tag
  }

  /** In a set whose valid tags are distinct, a valid line with the tag is the
      hit. */
  lemma HitUnique<V>(s: seq<Line<V>>, tag: nat, w: nat)
    requires TagsDistinct(s) && w < |s| && s[w].valid && s[w].tag == tag
    ensures HitFrom(s, tag, 0) == Some(w)
  {
    var r := HitFrom(s, tag, 0);
    assert r.Some?;
  }

  /** Writing a valid line at the hit way, or at any way when the tag misses,
      keeps the tags distinct. */
  lemma WriteKeepsDistinct<V>(s: seq<Line<V>>, tag: nat, val: V, w: nat)
    requires TagsDistinct(s) && w < |s|
    requires HitFrom(s, tag, 0) == Some(w) || HitFrom(s, tag, 0).None?
    ensures TagsDistinct(s[w := Line(tag, val, true)])
  {
    var s2 := s[w := Line(tag, val, true)];
    forall a, b | 0 <= a < b < |s2| && s2[a].valid && s2[b].valid
      ensures s2[a].tag != s2[b].tag
    {
      if a == w {
        assert s[b].valid && s[b].tag == s2[b].tag;
      } else if b == w {
        assert s[a].valid && s[a].tag == s2[a].tag;
      }
    }
  }

  /** set_vector::find: the way of the valid line whose tag equals tag. */
  method FindWay<V>(s: seq<Line<V>>, tag: nat) returns (w: Option<nat>)
    ensures w == HitFrom(s, tag, 0)
  {
    var j := 0;
    while j < |s|
      invariant 0 <= j <= |s|
      invariant HitFrom(s, tag, 0) == HitFrom(s, tag, j)
    {
      if s[j].valid && s[j].tag == tag {
        return Some(j);
      }
      j := j + 1;
    }
    return None;
  }

  /** set_vector::find_free_way: the first invalid way. */
  method FindFreeWay<V>(s: seq<Line<V>>) returns (w: Option<nat>)
    ensures w == FreeFrom(s, 0)
  {
    var j := 0;
    while j < |s|
      invariant 0 <= j <= |s|
      invariant FreeFrom(s, 0) == FreeFrom(s, j)
    {
      if !s[j].valid {
        return Some(j);
      }
      j := j + 1;
    }
    return None;
  }

  /** set_vector::clear: every line of the set becomes invalid. */
  method ClearSet<V>(s: seq<Line<V>>) returns (r: seq<Line<V>>)
    ensures |r| == |s| && forall w :: 0 <= w < |s| ==> r[w] == s[w].(valid := false)
  {
    r := s;
    var w := 0;
    while w < |s|
      invariant 0 <= w <= |s| && |r| == |s|
      invariant forall k :: 0 <= k < w ==> r[k] == s[k].(valid := false)
      invariant forall k :: w <= k < |s| ==> r[k] == s[k]
    {
      r := r[w := r[w].(valid := false)];
      w := w + 1;
    }
  }

  /** The iterator's pre-increment: the next way, or way 0 of the next set. */
  function Next(it: Iter, ways: nat): (r: Iter)
    requires it.way < ways
    ensures r.index * ways + r.way == it.index * ways + it.way + 1
    ensures r.way < ways
  {
    if it.way + 1 == ways then Iter(it.index + 1, 0) else Iter(it.index, it.way + 1)
  }

  /** The iterator after k increments from begin(). */
  function Advance(k: nat, ways: nat): Iter
    requires ways > 0
  {
    if k == 0 then Iter(0, 0) else Next(Advance(k - 1, ways), ways)
  }

  /** Walking from begin() visits the lines set by set, way by way; after
      set_num * way_num steps it is at end() = (set_num, 0). */
  lemma AdvanceAt(k: nat, ways: nat)
    requires ways > 0
    ensures Advance(k, ways) == Iter(k / ways, k % ways)
  {
    AdvancePosition(k, ways);
    DivModUnique(k, ways, Advance(k, ways).index, Advance(k, ways).way);
  }

  /** After k increments the iterator's flat position is k. */
  lemma {:induction false} AdvancePosition(k: nat, ways: nat)
    requires ways > 0
    ensures Advance(k, ways).index * ways + Advance(k, ways).way == k && Advance(k, ways).way < ways
  {
    if k > 0 {
      AdvancePosition(k - 1, ways);
    }
  }

  lemma AdvanceEnd(sets: nat, ways: nat)
    requires ways > 0
    ensures Advance(sets * ways, ways) == Iter(sets, 0)
  {
    AdvanceAt(sets * ways, ways);
    DivModUnique(sets * ways, ways, sets, 0);
  }

  /** A key built from tag, index and offset width splits back into them. */
  lemma RebuildSplits(tag: nat, index: nat, sets: nat, lineSize: nat)
    requires index < sets && lineSize >= 1
    ensures ((tag * sets + index) * lineSize / lineSize) % sets == index
    ensures (tag * sets + index) * lineSize / (lineSize * sets) == tag
  {
    var line := tag * sets + index;
    var key := line * lineSize;
    assert key == lineSize * line + 0;
    DivModUnique(key, lineSize, line, 0);
    DivModUnique(line, sets, tag, index);
    DivDiv(key, lineSize, sets);
  }

  /** setassoc_table with the default std_hasher and lru replacer. The flat
      line vector, cut at way_num lines per set, is held as one sequence of
      lines per set. */
  class SetAssocTable<V> {
    const idxBits: nat
    const offBits: nat
    const wayNum: nat
    var lines: seq<seq<Line<V>>>
    const replacer: LruList

    /** set_num: the hasher's size, 2 to the index width. */
    function SetNum(): nat
    {
      Pow2(idxBits)
    }

    /** std_hasher::index: the bits above the offset, masked to the index width. */
    function Index(key: nat): (i: nat)
      ensures i < SetNum()
    {
      (key / Pow2(offBits)) % Pow2(idxBits)
    }

    /** std_hasher::tag: the bits above offset and index. */
    function Tag(key: nat): nat
    {
      var d := Pow2(offBits + idxBits);
      DivNonNeg(key, d);
      key / d
    }

    /** std_hasher::rebuild: the line address of a tag in a set. */
    function Rebuild(tag: nat, index: nat): (key: nat)
      requires index < SetNum()
      ensures Index(key) == index && Tag(key) == tag
    {
      var key := (tag * Pow2(idxBits) + index) * Pow2(offBits);
      RebuildSplits(tag, index, Pow2(idxBits), Pow2(offBits));
      Pow2Add(offBits, idxBits);
      key
    }

    ghost predicate Valid()
      reads this, replacer
    {
      |lines| == SetNum() &&
      (forall i :: 0 <= i < |lines| ==> |lines[i]| == wayNum && TagsDistinct(lines[i])) &&
      replacer.Valid() && replacer.setNum == SetNum() && replacer.wayNum == wayNum
    }

    /** The value the table holds for key, if a valid line of its set has its tag. */
    ghost function Lookup(key: nat): Option<V>
      reads this, replacer
      requires Valid()
    {
      var s := lines[Index(key)];
      match HitFrom(s, Tag(key), 0)
      case Some(w) => Some(s[w].value)
      case None => None
    }

    function End(): Iter
    {
      Iter(SetNum(), 0)
    }

    /** The member initialisation: a table over a replacer already sized
        for its sets and ways, every set filled with default (invalid)
        lines. */
    constructor (idxWidth: nat, offWidth: nat, ways: nat, blank: V, r: LruList)
      requires r.Valid() && r.setNum == Pow2(idxWidth) && r.wayNum == ways
      ensures Valid() && idxBits == idxWidth && offBits == offWidth && wayNum == ways && replacer == r
      ensures forall i, w :: 0 <= i < |lines| && 0 <= w < ways ==> lines[i][w] == Line(0, blank, false)
      ensures forall key :: Lookup(key).None?
    {
      idxBits, offBits, wayNum := idxWidth, offWidth, ways;
      var blankSet := seq(ways, _ => Line(0, blank, false));
      lines := seq(Pow2(idxWidth), _ => blankSet);
      replacer := r;
      new;
      forall key ensures Lookup(key).None? {
        assert HitFrom(lines[Index(key)], Tag(key), 0).None?;
      }
    }

    /** The source's constructor: the replacer is constructed for the sets
        and ways first, and its construct throws when way_num + 1 does not
        fit its link type; otherwise every line starts invalid. */
    static method Create(idxWidth: nat, offWidth: nat, ways: nat, blank: V) returns (t: Result<SetAssocTable<V>>)
      ensures t.Ok? <==> ways + 1 < PointerMax
      ensures t.Ok? ==> fresh(t.value) && fresh(t.value.replacer)
      ensures t.Ok? ==> (t.value.Valid() && t.value.idxBits == idxWidth && t.value.offBits == offWidth &&
        t.value.wayNum == ways)
      ensures t.Ok? ==> forall key :: t.value.Lookup(key).None?
    {
      var r := new LruList();
      var ok := r.Construct(Pow2(idxWidth), ways);
      if !ok {
        return Fail("The specified way number is too large.");
      }
      var table := new SetAssocTable(idxWidth, offWidth, ways, blank, r);
      return Ok(table);
    }

    /** find: the line id of the valid line holding the key's tag in its set,
        or end(). */
    method Find(key: nat) returns (it: Iter)
      requires Valid()
      ensures it == End() <==> Lookup(key).None?
      ensures it != End() ==> (it.index == Index(key) && it.way < wayNum &&
        lines[it.index][it.way] == Line(Tag(key), Lookup(key).value, true))
    {
      var index := Index(key);
      var way := FindWay(lines[index], Tag(key));
      if way.Some? {
        return Iter(index, way.value);
      }
      return End();
    }

    /** read: the value on a hit, which also touches the replacer; a miss
        leaves the replacer alone. */
    method Read(key: nat) returns (it: Iter, val: Option<V>)
      requires Valid()
      modifies replacer
      ensures Valid() && lines == old(lines)
      ensures val == Lookup(key) && (it == End() <==> val.None?)
      ensures val.Some? ==> (it.index == Index(key) &&
        replacer.orders == old(replacer.orders)[it.index := Touched(old(replacer.orders[it.index]), it.way)])
      ensures val.None? ==> replacer.orders == old(replacer.orders)
    {
      it := Find(key);
      if it != End() {
        val := Some(lines[it.index][it.way].value);
        replacer.Touch(it.index, it.way);
      } else {
        val := None;
      }
    }

    /** write: a hit rewrites its own line; a miss takes the first invalid way
        or, in a full set, the replacer's target, reporting the replaced line
        and its rebuilt key. The written way is then touched. */
    method Write(key: nat, val: V) returns (it: Iter, replaced: bool, victim: Option<Line<V>>, victimKey: nat)
      requires Valid() && wayNum > 0
      modifies this, replacer
      ensures Valid() && it.index == Index(key) && it.way < wayNum
      ensures lines == old(lines)[it.index := old(lines[it.index])[it.way := Line(Tag(key), val, true)]]
      ensures Lookup(key) == Some(val)
      ensures old(HitFrom(lines[Index(key)], Tag(key), 0)).Some? ==>
        !replaced && it.way == old(HitFrom(lines[Index(key)], Tag(key), 0)).value
      ensures old(HitFrom(lines[Index(key)], Tag(key), 0)).None? && old(FreeFrom(lines[Index(key)], 0)).Some? ==>
        !replaced && it.way == old(FreeFrom(lines[Index(key)], 0)).value
      ensures old(HitFrom(lines[Index(key)], Tag(key), 0)).None? && old(FreeFrom(lines[Index(key)], 0)).None? ==>
        replaced && it.way == old(replacer.Target(Index(key)))
      ensures replaced <==> victim.Some?
      ensures replaced ==> (victim.value == old(lines[it.index][it.way]) &&
        victimKey == Rebuild(victim.value.tag, it.index))
      ensures replacer.orders == old(replacer.orders)[it.index := Touched(old(replacer.orders[it.index]), it.way)]
    {
      var index := Index(key);
      var tag := Tag(key);
      var s := lines[index];
      replaced := false;
      victim := None;
      victimKey := 0;
      var hit := FindWay(s, tag);
      var way: nat;
      if hit.Some? {
        way := hit.value;
      } else {
        var free := FindFreeWay(s);
        if free.Some? {
          way := free.value;
        } else {
          way := replacer.Target(index);
          replaced := true;
          victim := Some(s[way]);
          victimKey := Rebuild(s[way].tag, index);
        }
      }
      it := Iter(index, way);
      WriteKeepsDistinct(s, tag, val, way);
      var s2 := s[way := Line(tag, val, true)];
      HitUnique(s2, tag, way);
      lines := lines[index := s2];
      replacer.Touch(index, way);
    }

    /** invalidate: a hit line becomes invalid; the id found (or end()) is
        returned. */
    method Invalidate(key: nat) returns (it: Iter)
      requires Valid()
      modifies this
      ensures Valid() && Lookup(key).None?
      ensures it == End() <==> old(Lookup(key)).None?
      ensures it == End() ==> lines == old(lines)
      ensures it != End() ==> (it.index == Index(key) && it.way < wayNum &&
        lines == old(lines)[it.index := old(lines[it.index])[it.way := old(lines[it.index][it.way]).(valid := false)]])
    {
      it := Find(key);
      if it != End() && lines[it.index][it.way].valid {
        var s := lines[it.index];
        var s2 := s[it.way := s[it.way].(valid := false)];
        assert TagsDistinct(s2);
        var h := HitFrom(s2, Tag(key), 0);
        if h.Some? {
          HitUnique(s, Tag(key), h.value);
        }
        lines := lines[it.index := s2];
      }
    }

    /** clear: every line of every set becomes invalid. */
    method Clear()
      requires Valid()
      modifies this
      ensures Valid() && |lines| == |old(lines)|
      ensures forall i, w :: 0 <= i < |lines| && 0 <= w < wayNum ==> lines[i][w] == old(lines[i][w]).(valid := false)
      ensures forall key :: Lookup(key).None?
    {
      var i := 0;
      while i < |lines|
        invariant 0 <= i <= |lines| && |lines| == SetNum() && Valid()
        invariant forall j, w :: 0 <= j < i && 0 <= w < wayNum ==> lines[j][w] == old(lines[j][w]).(valid := false)
        invariant forall j :: i <= j < |lines| ==> lines[j] == old(lines[j])
      {
        var s := ClearSet(lines[i]);
        lines := lines[i := s];
        i := i + 1;
      }
      forall key ensures Lookup(key).None? {
        assert HitFrom(lines[Index(key)], Tag(key), 0).None?;
      }
    }
  }
}
