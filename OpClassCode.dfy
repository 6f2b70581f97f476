/** Operation classes of the simulator's instruction set abstraction:
    the code/name table, its two lookups and the class predicates. */
module OpClassCode {
  import opened Wrappers

  const CALL := 0
  const CALL_JUMP := 1
  const RET := 2
  const RETC := 3
  const INT_BEGIN := 4
  const iBC := 4
  const iBU := 5
  const iJUMP := 6
  const iLD := 7
  const iST := 8
  const iIMM := 9
  const iMOV := 10
  const iALU := 11
  const iSFT := 12
  const iMUL := 13
  const iDIV := 14
  const iBYTE := 15
  const INT_END := 15
  const FLOAT_BEGIN := 16
  const fBC := 16
  const fLD := 17
  const fST := 18
  const fMOV := 19
  const fNEG := 20
  const fADD := 21
  const fMUL := 22
  const fDIV := 23
  const fCONV := 24
  const fELEM := 25
  const FLOAT_END := 25
  const ifCONV := 26
  const syscall := 27
  const syscall_branch := 28
  const ADDR := 29
  const iNOP := 30
  const fNOP := 31
  const UNDEF := 32
  const other := 33
  const Code_MAX := 33

  const UnknownName := "(unknown OpClassCode)"

  datatype CodeStr = CodeStr(code: int, name: string)

  /** The names in code order: the name of code i is Names[i]. */
  const Names: seq<string> := [
    "CALL", "CALL_JUMP", "RET", "RETC", "iBC", "iBU", "iJUMP", "iLD", "iST",
    "iIMM", "iMOV", "iALU", "iSFT", "iMUL", "iDIV", "iBYTE", "fBC", "fLD", "fST",
    "fMOV", "fNEG", "fADD", "fMUL", "fDIV", "fCONV", "fELEM", "ifCONV", "syscall",
    "syscall_branch", "ADDR", "iNOP", "fNOP", "UNDEF", "other"
  ]

  /** The code/name table, sorted by code: entry i pairs code i (the
      constants above, in order) with Names[i]. */
  const Table: seq<CodeStr> := TablePrefix(|Names|)

  function TablePrefix(k: nat): (t: seq<CodeStr>)
    requires k <= |Names|
    ensures |t| == k && forall i :: 0 <= i < k ==> t[i] == CodeStr(i, Names[i])
  {
    if k == 0 then [] else TablePrefix(k - 1) + [CodeStr(k - 1, Names[k - 1])]
  }

  /** Every entry's code equals its position, so the table is sorted and
      covers exactly the codes 0..Code_MAX. */
  lemma TableShape()
    ensures |Table| == Code_MAX + 1
    ensures forall i :: 0 <= i < |Table| ==> Table[i].code == i && Table[i].name == Names[i]
  {
  }

  /** A fingerprint of a name (its length, first two and last characters),
      used only to show that the names are pairwise distinct. */
  function Fingerprint(s: string): int
    requires |s| >= 2
  {
    ((|s| * 128 + s[0] as int) * 128 + s[1] as int) * 128 + s[|s| - 1] as int
  }

  const Fingerprints: seq<int> := [
    9494732, 19980496, 7643860, 9740995, 8020291, 8020309, 12215632, 8021572,
    8022484, 10118349, 10118870, 10117333, 10119636, 10118860, 10117718, 12214597,
    7971139, 7972420, 7973332, 10069718, 10069831, 10068164, 10069708, 10068566,
    12165590, 12165837, 14316374, 16579820, 31259880, 9462354, 10118992, 10069840,
    11888454, 12319346
  ]

  lemma FingerprintsOfNames()
    ensures |Fingerprints| == |Names|
    ensures forall i :: 0 <= i < |Names| ==> |Names[i]| >= 2 && Fingerprint(Names[i]) == Fingerprints[i]
  {
    FingerprintsOfNamesIn0();
    FingerprintsOfNamesIn1();
    FingerprintsOfNamesIn2();
    FingerprintsOfNamesIn3();
  }

  lemma FingerprintsOfNamesIn0()
    ensures forall i :: 0 <= i < 9 ==> |Names[i]| >= 2 && Fingerprint(Names[i]) == Fingerprints[i]
  {
  }

  lemma FingerprintsOfNamesIn1()
    ensures forall i :: 9 <= i < 18 ==> |Names[i]| >= 2 && Fingerprint(Names[i]) == Fingerprints[i]
  {
  }

  lemma FingerprintsOfNamesIn2()
    ensures forall i :: 18 <= i < 27 ==> |Names[i]| >= 2 && Fingerprint(Names[i]) == Fingerprints[i]
  {
  }

  lemma FingerprintsOfNamesIn3()
    ensures forall i :: 27 <= i < 34 ==> |Names[i]| >= 2 && Fingerprint(Names[i]) == Fingerprints[i]
  {
  }

  /** The position of a fingerprint in Fingerprints, -1 if absent. */
  function FingerprintIndex(f: int): int
  {
    if f == 9494732 then 0
    else if f == 19980496 then 1
    else if f == 7643860 then 2
    else if f == 9740995 then 3
    else if f == 8020291 then 4
    else if f == 8020309 then 5
    else if f == 12215632 then 6
    else if f == 8021572 then 7
    else if f == 8022484 then 8
    else if f == 10118349 then 9
    else if f == 10118870 then 10
    else if f == 10117333 then 11
    else if f == 10119636 then 12
    else if f == 10118860 then 13
    else if f == 10117718 then 14
    else if f == 12214597 then 15
    else if f == 7971139 then 16
    else if f == 7972420 then 17
    else if f == 7973332 then 18
    else if f == 10069718 then 19
    else if f == 10069831 then 20
    else if f == 10068164 then 21
    else if f == 10069708 then 22
    else if f == 10068566 then 23
    else if f == 12165590 then 24
    else if f == 12165837 then 25
    else if f == 14316374 then 26
    else if f == 16579820 then 27
    else if f == 31259880 then 28
    else if f == 9462354 then 29
    else if f == 10118992 then 30
    else if f == 10069840 then 31
    else if f == 11888454 then 32
    else if f == 12319346 then 33
    else -1
  }

  lemma FingerprintIndexOf()
    ensures forall i :: 0 <= i < |Fingerprints| ==> FingerprintIndex(Fingerprints[i]) == i
  {
  }

  lemma FingerprintsDistinct()
    ensures forall i, j :: 0 <= i < j < |Fingerprints| ==> Fingerprints[i] != Fingerprints[j]
  {
    FingerprintIndexOf();
  }

  /** The names in the table are pairwise distinct. */
  lemma NamesDistinct(i: int, j: int)
    requires 0 <= i < |Names| && 0 <= j < |Names| && i != j
    ensures Names[i] != Names[j]
  {
    FingerprintsOfNames();
    FingerprintsDistinct();
    var fi, fj := Fingerprints[i], Fingerprints[j];
    assert fi != fj by {
      if i < j { } else { }
    }
  }

  /** First position whose code is not below `c` (std::lower_bound). */
  function LowerBound(t: seq<CodeStr>, c: int): (i: nat)
    ensures i <= |t|
    ensures forall j :: 0 <= j < i ==> t[j].code < c
    ensures i < |t| ==> t[i].code >= c
  {
    if t == [] || t[0].code >= c then 0 else 1 + LowerBound(t[1..], c)
  }

  /** Codes equal positions: the entries of a table laid out like `Table`. */
  ghost predicate Indexed(t: seq<CodeStr>)
  {
    forall i :: 0 <= i < |t| ==> t[i].code == i
  }

  /** On such a table, lower_bound lands on the code itself when it is listed. */
  lemma LowerBoundIndexed(t: seq<CodeStr>, c: int)
    requires Indexed(t)
    ensures 0 <= c < |t| ==> LowerBound(t, c) == c
    ensures c < 0 ==> LowerBound(t, c) == 0
    ensures c >= |t| ==> LowerBound(t, c) == |t|
  {
    if 0 <= c < |t| {
      assert t[c].code == c;
    }
  }

  function ToString(c: int): (s: string)
    ensures 0 <= c <= Code_MAX ==> s == Names[c]
    ensures !(0 <= c <= Code_MAX) ==> s == UnknownName
  {
    TableShape();
    LowerBoundIndexed(Table, c);
    var e := LowerBound(Table, c);
    if e == |Table| || Table[e].code != c then UnknownName else Table[e].name
  }

  /** Linear search by name; an unknown name raises. */
  function FindName(t: seq<CodeStr>, s: string): (r: Option<nat>)
    ensures r.Some? ==> r.value < |t| && t[r.value].name == s
    ensures r.Some? ==> forall j :: 0 <= j < r.value ==> t[j].name != s
    ensures r.None? ==> forall j :: 0 <= j < |t| ==> t[j].name != s
  {
    if t == [] then None
    else if t[0].name == s then Some(0)
    else match FindName(t[1..], s)
      case None => None
      case Some(k) => Some(k + 1)
  }

  function FromString(s: string): (r: Result<int>)
    ensures r.Ok? <==> s in Names
    ensures r.Ok? ==> 0 <= r.value <= Code_MAX && Names[r.value] == s
  {
    FindNameInTable(s);
    match FindName(Table, s)
      case None => Fail("unknown code")
      case Some(k) => Ok(Table[k].code)
  }

  /** Searching the table by name finds exactly the listed names, at their codes. */
  lemma FindNameInTable(s: string)
    ensures FindName(Table, s).Some? <==> s in Names
    ensures FindName(Table, s).Some? ==> var k := FindName(Table, s).value;
      k < |Names| && Table[k].code == k && Names[k] == s
  {
    TableShape();
    if s in Names {
      var i :| 0 <= i < |Names| && Names[i] == s;
      assert Table[i].name == s;
    }
  }

  /** FromString inverts ToString on every defined code ... */
  lemma FromToString(c: int)
    requires 0 <= c <= Code_MAX
    ensures FromString(ToString(c)) == Ok(c)
  {
    var r := FromString(ToString(c));
    assert Names[c] == ToString(c);
    if r.value != c {
      NamesDistinct(r.value, c);
    }
  }

  /** ... and ToString inverts FromString on every accepted name. */
  lemma ToFromString(s: string)
    requires FromString(s).Ok?
    ensures ToString(FromString(s).value) == s
  {
  }

  predicate IsConditionalBranch(code: int) { code == iBC || code == fBC || code == RETC }
  predicate IsCall(code: int) { code == CALL || code == CALL_JUMP }
  predicate IsUnconditionalBranch(code: int)
  {
    IsCall(code) || code == RET || code == iBU || code == iJUMP || code == syscall_branch
  }
  predicate IsBranch(code: int) { IsConditionalBranch(code) || IsUnconditionalBranch(code) }
  predicate IsIndirectJump(code: int) { code == CALL_JUMP || code == iJUMP }
  predicate IsReturn(code: int) { code == RET || code == RETC }
  predicate IsSubroutine(code: int) { IsCall(code) || code == RET || code == RETC }
  predicate IsLoad(code: int) { code == iLD || code == fLD }
  predicate IsStore(code: int) { code == iST || code == fST }
  predicate IsMem(code: int) { IsLoad(code) || IsStore(code) }
  predicate IsAddr(code: int) { code == ADDR }
  predicate IsInt(code: int) { INT_BEGIN <= code <= INT_END }
  predicate IsFloat(code: int) { FLOAT_BEGIN <= code <= FLOAT_END }
  predicate IsIFConversion(code: int) { code == ifCONV }
  predicate IsSyscall(code: int) { code == syscall || code == syscall_branch || code == UNDEF }
  predicate IsNop(code: int) { code == iNOP || code == fNOP }

  /** The branch classes, enumerated: exactly nine codes are branches. */
  lemma BranchClasses(code: int)
    ensures IsBranch(code) <==> code in {CALL, CALL_JUMP, RET, RETC, iBC, iBU, iJUMP, fBC, syscall_branch}
    ensures IsCall(code) ==> IsUnconditionalBranch(code) && IsSubroutine(code)
    ensures IsIndirectJump(code) ==> IsUnconditionalBranch(code)
    ensures IsReturn(code) ==> IsBranch(code) && !IsCall(code)
    ensures IsConditionalBranch(code) && IsUnconditionalBranch(code) ==> false
  {
  }

  /** Memory, integer and floating classes are disjoint; loads and stores are
      integer or floating; UNDEF is treated as a system call. */
  lemma ClassPartition(code: int)
    ensures IsMem(code) ==> (IsInt(code) || IsFloat(code)) && !IsBranch(code)
    ensures !(IsInt(code) && IsFloat(code))
    ensures !(IsLoad(code) && IsStore(code))
    ensures IsSyscall(UNDEF) && !IsBranch(UNDEF) && IsBranch(syscall_branch)
  {
  }
}
