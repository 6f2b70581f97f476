/** The Kanata trace loader. A trace is a header line followed by
    tab-separated command lines: C= and C set or advance the current cycle,
    I creates a live instruction, L labels it, S and E open and close one of
    its stages in a lane (segment), W records a producer of it, and R
    retires it into the archive (the instruction database). At the end of
    the file every stage still open is closed at the final cycle and every
    live instruction is archived.

    Each handler is specified by a step function on LoaderState whose
    Outcome says whether the handler threw; the class LogLoader carries the
    handlers as methods over its fields, each proved to perform its step. */
module KanataLoader {
  import opened Wrappers
  import opened KanataInsn

  /** The trace format version this loader reads (OnikiriKanataFileVersion). */
  const OnikiriKanataFileVersion: int := 4

  const U64: nat := 0x1_0000_0000_0000_0000

  function Max(a: nat, b: nat): nat { if a < b then b else a }
  function Min(a: nat, b: nat): nat { if a < b then a else b }

  // ---------------------------------------------------------------------
  // Splitting a line into fields
  // ---------------------------------------------------------------------

  /** The fields of a line separated by tab characters, empty fields
      included (String.Split on one character). */
  function Fields(line: string): (cols: seq<string>)
    ensures |cols| >= 1
    decreases |line|
  {
    if |line| == 0 then [""]
    else
      var rest := Fields(line[1..]);
      if line[0] == '\t' then [""] + rest else [[line[0]] + rest[0]] + rest[1..]
  }

  /** The fields joined again with tab characters. */
  function JoinFields(cols: seq<string>): string
    requires |cols| >= 1
    decreases |cols|
  {
    if |cols| == 1 then cols[0] else cols[0] + "\t" + JoinFields(cols[1..])
  }

  function Tabs(s: string): nat
    decreases |s|
  {
    if |s| == 0 then 0 else (if s[0] == '\t' then 1 else 0) + Tabs(s[1..])
  }

  lemma {:induction false} JoinHead(c: char, rest: seq<string>)
    requires |rest| >= 1
    ensures JoinFields([[c] + rest[0]] + rest[1..]) == [c] + JoinFields(rest)
  {
    var head := [c] + rest[0];
    var cols := [head] + rest[1..];
    if |rest| == 1 {
      assert cols == [head];
    } else {
      var tail := JoinFields(rest[1..]);
      assert JoinFields(cols) == head + "\t" + tail by {
        assert cols[1..] == rest[1..];
      }
      assert head + "\t" + tail == [c] + (rest[0] + "\t" + tail);
    }
  }

  /** Splitting loses nothing: the fields joined with tabs give the line
      back, there is one field more than there are tabs, and no field holds
      a tab. */
  lemma {:induction false} FieldsRoundTrip(line: string)
    ensures JoinFields(Fields(line)) == line
    ensures |Fields(line)| == Tabs(line) + 1
    ensures forall i :: 0 <= i < |Fields(line)| ==> '\t' !in Fields(line)[i]
    decreases |line|
  {
    if |line| > 0 {
      var rest := Fields(line[1..]);
      FieldsRoundTrip(line[1..]);
      if line[0] == '\t' {
        assert ([""] + rest)[1..] == rest;
        assert line == [line[0]] + line[1..];
      } else {
        JoinHead(line[0], rest);
        assert line == [line[0]] + line[1..];
        var cols := Fields(line);
        forall i | 0 <= i < |cols|
          ensures '\t' !in cols[i]
        {
          if i > 0 {
            assert cols[i] == rest[i];
          }
        }
      }
    }
  }

  // ---------------------------------------------------------------------
  // Numbers
  // ---------------------------------------------------------------------

  predicate IsDigit(c: char) { '0' <= c <= '9' }

  predicate AllDigits(s: string)
  {
    forall i :: 0 <= i < |s| ==> IsDigit(s[i])
  }

  /** The value of a string of decimal digits, most significant first. */
  function Decimal(s: string): nat
    requires AllDigits(s)
    decreases |s|
  {
    if |s| == 0 then 0
    else Decimal(s[..|s| - 1]) * 10 + ((s[|s| - 1] as int) - ('0' as int))
  }

  /** What ParseUInt64 returns: 0 as soon as a character is not a digit,
      otherwise the digits accumulated in 64-bit unsigned arithmetic. */
  function FastValue(s: string): nat
  {
    if AllDigits(s) then Decimal(s) % U64 else 0
  }

  /** The errors ParseUInt64 logs: a field longer than 8 characters, and a
      field that is not a number. */
  function NumberErrors(s: string, line: nat): seq<LoadError>
  {
    (if |s| > 8 then [TooLarge(s, line)] else [])
    + (if AllDigits(s) then [] else [NotANumber(s, line)])
  }

  /** The errors ParseUInt64 logs as written: the message for a non-digit
      is formatted but never added to the error list. */
  function NumberErrorsAsWritten(s: string, line: nat): seq<LoadError>
  {
    if |s| > 8 then [TooLarge(s, line)] else []
  }

  /** The white space that NumberStyles.AllowLeadingWhite and
      AllowTrailingWhite skip: U+0009 to U+000D and U+0020. */
  predicate IsWhite(c: char) { c == ' ' || '\t' <= c <= '\r' }

  /** The number of white-space characters the field starts with. */
  function LeadingWhite(s: string): (n: nat)
    ensures n <= |s|
    ensures forall i :: 0 <= i < n ==> IsWhite(s[i])
    ensures n < |s| ==> !IsWhite(s[n])
    decreases |s|
  {
    if |s| > 0 && IsWhite(s[0]) then 1 + LeadingWhite(s[1..]) else 0
  }

  /** The number of white-space characters the field ends with. */
  function TrailingWhite(s: string): (n: nat)
    ensures n <= |s|
    ensures forall i :: |s| - n <= i < |s| ==> IsWhite(s[i])
    ensures n < |s| ==> !IsWhite(s[|s| - n - 1])
    decreases |s|
  {
    if |s| > 0 && IsWhite(s[|s| - 1]) then 1 + TrailingWhite(s[..|s| - 1]) else 0
  }

  /** The field without white space at either end. */
  function Trim(s: string): (t: string)
    ensures |t| > 0 ==> !IsWhite(t[0]) && !IsWhite(t[|t| - 1])
  {
    var u := s[LeadingWhite(s)..];
    u[..|u| - TrailingWhite(u)]
  }

  /** A field without white space is its own trimmed form. */
  lemma TrimPlain(s: string)
    requires forall i :: 0 <= i < |s| ==> !IsWhite(s[i])
    ensures Trim(s) == s
  {
  }

  /** A trimmed field t is an optional sign followed by the digits ds,
      whose value is in range: below pos, or at most neg after a '-'. */
  predicate SignedDigits(t: string, sign: string, ds: string, neg: nat, pos: nat)
  {
    sign in {"", "+", "-"} && t == sign + ds && 0 < |ds| && AllDigits(ds)
    && (if sign == "-" then Decimal(ds) <= neg else Decimal(ds) < pos)
  }

  /** Parsing with NumberStyles.Integer, the style of UInt64.Parse,
      Int64.Parse and Int32.Parse: leading and trailing white space, an
      optional '+' or '-', then one or more decimal digits. The value must
      lie in [-neg, pos); for an unsigned type neg is 0, so a minus sign is
      accepted only before a zero. */
  function ParseInteger(s: string, neg: nat, pos: nat): (r: Option<int>)
    requires 0 < pos
    ensures r.Some? ==> -(neg as int) <= r.value < pos
    ensures r.Some? ==> exists sign, ds :: SignedDigits(Trim(s), sign, ds, neg, pos)
    ensures forall sign, ds :: SignedDigits(Trim(s), sign, ds, neg, pos) ==>
      r == Some(if sign == "-" then -(Decimal(ds) as int) else Decimal(ds))
  {
    var t := Trim(s);
    SignSplit(t, neg, pos);
    SignJoin(t, neg, pos);
    if |t| > 0 && (t[0] == '-' || t[0] == '+') then
      var ds := t[1..];
      if |ds| > 0 && AllDigits(ds) && (if t[0] == '-' then Decimal(ds) <= neg else Decimal(ds) < pos) then
        Some(if t[0] == '-' then -(Decimal(ds) as int) else Decimal(ds))
      else
        None
    else if |t| > 0 && AllDigits(t) && Decimal(t) < pos then
      Some(Decimal(t))
    else
      None
  }

  /** The split SignSplit describes is a SignedDigits split whenever its
      digits are well formed and in range. */
  lemma SignJoin(t: string, neg: nat, pos: nat)
    ensures (|t| > 0 && (t[0] == '-' || t[0] == '+') && |t[1..]| > 0 && AllDigits(t[1..])
             && (if t[0] == '-' then Decimal(t[1..]) <= neg else Decimal(t[1..]) < pos)) ==>
      SignedDigits(t, t[..1], t[1..], neg, pos)
    ensures (!(|t| > 0 && (t[0] == '-' || t[0] == '+')) && |t| > 0 && AllDigits(t) && Decimal(t) < pos) ==>
      SignedDigits(t, "", t, neg, pos)
  {
    if |t| > 0 {
      assert t == t[..1] + t[1..] && t[..1] == [t[0]];
      assert t == "" + t;
    }
  }

  /** How a trimmed field splits into a sign and digits: the sign is the
      first character when that is '+' or '-', and empty otherwise. */
  lemma SignSplit(t: string, neg: nat, pos: nat)
    ensures forall sign, ds :: SignedDigits(t, sign, ds, neg, pos) ==>
      if |t| > 0 && (t[0] == '-' || t[0] == '+') then sign == t[..1] && ds == t[1..]
      else sign == "" && ds == t
  {
    forall sign, ds | SignedDigits(t, sign, ds, neg, pos)
      ensures if |t| > 0 && (t[0] == '-' || t[0] == '+') then sign == t[..1] && ds == t[1..]
        else sign == "" && ds == t
    {
      if sign == "" {
        assert t == ds;
        assert IsDigit(ds[0]);
      } else {
        assert t[0] == sign[0] && t[1..] == ds;
      }
    }
  }

  /** UInt64.Parse; None is the exception it throws. */
  function ParseULong(s: string): (r: Option<nat>)
    ensures r.Some? ==> r.value < U64
    ensures r.Some? <==> ParseInteger(s, 0, U64).Some?
  {
    var v := ParseInteger(s, 0, U64);
    if v.None? then None else Some(v.value as nat)
  }

  /** Int64.Parse. */
  function ParseLong(s: string): Option<int>
  {
    ParseInteger(s, 0x8000_0000_0000_0000, 0x8000_0000_0000_0000)
  }

  /** Int32.Parse. */
  function ParseInt(s: string): Option<int>
  {
    ParseInteger(s, 0x8000_0000, 0x8000_0000)
  }

  lemma DecimalBelow(s: string)
    requires AllDigits(s)
    ensures Decimal(s) < Pow10(|s|)
    decreases |s|
  {
    if |s| > 0 {
      DecimalBelow(s[..|s| - 1]);
    }
  }

  function Pow10(n: nat): nat
  {
    if n == 0 then 1 else 10 * Pow10(n - 1)
  }

  lemma Pow10Mono(m: nat, n: nat)
    requires m <= n
    ensures Pow10(m) <= Pow10(n)
    decreases n
  {
    if m < n {
      Pow10Mono(m, n - 1);
    }
  }

  /** A field of plain digits (no white space, no sign) is read by
      UInt64.Parse as its decimal value, and refused when that overflows. */
  lemma DigitsParse(s: string)
    requires 0 < |s| && AllDigits(s)
    ensures ParseULong(s) == if Decimal(s) < U64 then Some(Decimal(s)) else None
  {
    TrimPlain(s);
    SignSplit(s, 0, U64);
    if Decimal(s) < U64 {
      assert s == "" + s;
      assert SignedDigits(Trim(s), "", s, 0, U64);
    } else {
      assert IsDigit(s[0]);
    }
  }

  /** UInt64.Parse reads a field that splits into a sign and digits as
      their value, which is 0 after a minus sign. */
  lemma ULongOfSplit(s: string, sign: string, ds: string)
    requires SignedDigits(Trim(s), sign, ds, 0, U64)
    ensures ParseULong(s) == Some(if sign == "-" then 0 else Decimal(ds))
  {
  }

  /** A field that is empty or all white space is refused. */
  lemma BlankRefused(s: string)
    requires |Trim(s)| == 0
    ensures ParseULong(s) == None
  {
    SignSplit(Trim(s), 0, U64);
  }

  /** ParseUInt64 stands in for UInt64.Parse: whenever UInt64.Parse accepts
      a field of plain digits the two agree, and a field of at most 8
      digits is read exactly and accepted by both. */
  lemma {:induction false} FastValueAgrees(s: string)
    ensures AllDigits(s) && ParseULong(s).Some? ==> FastValue(s) == ParseULong(s).value
    ensures |s| <= 8 && AllDigits(s) ==> FastValue(s) == Decimal(s) < 100_000_000
    ensures 0 < |s| <= 8 && AllDigits(s) ==> ParseULong(s) == Some(FastValue(s))
  {
    if AllDigits(s) {
      if |s| == 0 {
        BlankRefused(s);
      } else {
        DigitsParse(s);
      }
      if |s| <= 8 {
        DecimalBelow(s);
        Pow10Mono(|s|, 8);
        assert Pow10(8) == 100_000_000;
      }
    }
  }

  /** Where the two differ: an empty field and a field holding a non-digit
      read as 0, where UInt64.Parse throws. */
  lemma FastValueDiffers()
    ensures FastValue("") == 0 && ParseULong("") == None
    ensures FastValue("12a") == 0 && ParseULong("12a") == None
  {
    BlankRefused("");
    assert !IsDigit("12a"[2]);
    TrimPlain("12a");
    SignSplit("12a", 0, U64);
  }

  /** A sign followed by digits holds no white space to trim. */
  lemma SignTrimmed(sign: char, ds: string)
    requires !IsWhite(sign) && AllDigits(ds)
    ensures Trim([sign] + ds) == [sign] + ds
  {
    TrimPlain([sign] + ds);
  }

  /** The other way round: white space around the digits, a leading '+'
      and a minus sign before a zero are accepted by UInt64.Parse, but
      ParseUInt64 reads each of them as 0. */
  lemma {:induction false} FastValueLenient(ds: string)
    requires 0 < |ds| && AllDigits(ds) && Decimal(ds) < U64
    ensures FastValue(" " + ds) == 0 && ParseULong(" " + ds) == Some(Decimal(ds))
    ensures FastValue(ds + " ") == 0 && ParseULong(ds + " ") == Some(Decimal(ds))
    ensures FastValue("+" + ds) == 0 && ParseULong("+" + ds) == Some(Decimal(ds))
    ensures Decimal(ds) == 0 ==> FastValue("-" + ds) == 0 && ParseULong("-" + ds) == Some(0)
  {
    PaddedTrim(ds);
    SignTrimmed('+', ds);
    SignTrimmed('-', ds);
    assert ds == "" + ds;
    ULongOfSplit(" " + ds, "", ds);
    ULongOfSplit(ds + " ", "", ds);
    ULongOfSplit("+" + ds, "+", ds);
    if Decimal(ds) == 0 {
      ULongOfSplit("-" + ds, "-", ds);
    }
    NotAllDigits(" " + ds, 0);
    NotAllDigits(ds + " ", |ds|);
    NotAllDigits("+" + ds, 0);
    NotAllDigits("-" + ds, 0);
  }

  /** One white-space character before or after a field without white
      space at its ends is trimmed away. */
  lemma PaddedTrim(ds: string)
    requires 0 < |ds| && !IsWhite(ds[0]) && !IsWhite(ds[|ds| - 1])
    ensures Trim(" " + ds) == ds && Trim(ds + " ") == ds
  {
    var a := " " + ds;
    assert a[1..] == ds;
    assert LeadingWhite(a) == 1;
    var b := ds + " ";
    assert b[..|b| - 1] == ds;
    assert TrailingWhite(b) == 1;
  }

  /** A field with a non-digit at position i is read as 0 by ParseUInt64. */
  lemma NotAllDigits(s: string, i: nat)
    requires i < |s| && !IsDigit(s[i])
    ensures FastValue(s) == 0
  {
  }

  /** As written, a field holding a non-digit reads as 0 and leaves no
      trace in the error list; the corrected version logs it. */
  lemma NonDigitSilentAsWritten(line: nat)
    ensures FastValue("1x") == 0
    ensures NumberErrorsAsWritten("1x", line) == []
    ensures NumberErrors("1x", line) == [NotANumber("1x", line)]
  {
    assert !IsDigit("1x"[1]);
  }

  /** The corrected ParseUInt64 logs a non-number exactly when a character
      is not a digit and an over-long field exactly when it has more than 8
      characters; it differs from the code as written exactly on the fields
      that are not numbers. */
  lemma NumberErrorsReport(s: string, line: nat)
    ensures NotANumber(s, line) in NumberErrors(s, line) <==> !AllDigits(s)
    ensures TooLarge(s, line) in NumberErrors(s, line) <==> |s| > 8
    ensures |NumberErrors(s, line)| <= 2
    ensures NumberErrorsAsWritten(s, line) == NumberErrors(s, line) <==> AllDigits(s)
  {
  }

  predicate IsHexDigit(c: char)
  {
    '0' <= c <= '9' || 'a' <= c <= 'f' || 'A' <= c <= 'F'
  }

  function HexDigitValue(c: char): nat
    requires IsHexDigit(c)
  {
    if '0' <= c <= '9' then (c as int) - ('0' as int)
    else if 'a' <= c <= 'f' then (c as int) - ('a' as int) + 10
    else (c as int) - ('A' as int) + 10
  }

  predicate AllHex(s: string)
  {
    forall i :: 0 <= i < |s| ==> IsHexDigit(s[i])
  }

  function Hex(s: string): nat
    requires AllHex(s)
    decreases |s|
  {
    if |s| == 0 then 0 else Hex(s[..|s| - 1]) * 16 + HexDigitValue(s[|s| - 1])
  }

  /** Int32.Parse with NumberStyles.HexNumber: leading and trailing white
      space around hex digits worth at most 32 bits, read as a two's
      complement value. */
  function ParseHexInt32(s: string): (r: Option<int>)
    ensures r.Some? <==> 0 < |Trim(s)| && AllHex(Trim(s)) && Hex(Trim(s)) < U32
    ensures r.Some? ==> -0x8000_0000 <= r.value < 0x8000_0000
  {
    var t := Trim(s);
    if |t| > 0 && AllHex(t) && Hex(t) < U32 then Some(ToInt32(Hex(t))) else None
  }

  // ---------------------------------------------------------------------
  // The header
  // ---------------------------------------------------------------------

  /** CheckLogFileVersion: the version the header line declares. Fail is the
      exception: a header with fewer than two fields, a first field other
      than "C=" or "Kanata", or a version field that is not hexadecimal.
      A "C=" header is a version 0 trace. */
  function HeaderVersion(line: string): Result<int>
  {
    var cols := Fields(line);
    if |cols| < 2 || (cols[0] != "C=" && cols[0] != "Kanata") then
      Fail("This file does not have a correct header.")
    else if cols[0] == "C=" then Ok(0)
    else
      match ParseHexInt32(cols[1])
      case Some(v) => Ok(v)
      case None => Fail("The version field is not a hexadecimal number.")
  }

  /** A version other than the supported one only shows a warning. */
  predicate VersionWarning(version: int)
  {
    version != OnikiriKanataFileVersion
  }

  lemma HeaderRules(line: string)
    ensures |Fields(line)| < 2 ==> HeaderVersion(line).Fail?
    ensures |Fields(line)| >= 2 && Fields(line)[0] != "C=" && Fields(line)[0] != "Kanata" ==>
      HeaderVersion(line).Fail?
    ensures |Fields(line)| >= 2 && Fields(line)[0] == "C=" ==>
      HeaderVersion(line) == Ok(0) && VersionWarning(0)
    ensures |Fields(line)| >= 2 && Fields(line)[0] == "Kanata" ==>
      (HeaderVersion(line).Ok? <==> ParseHexInt32(Fields(line)[1]).Some?)
  {
  }

  /** A "Kanata" header declares the version its second field gives in
      hexadecimal. */
  lemma HeaderOfKanata(v: string)
    requires '\t' !in v
    ensures HeaderVersion("Kanata" + "\t" + v).Ok? <==> ParseHexInt32(v).Some?
    ensures ParseHexInt32(v).Some? ==> HeaderVersion("Kanata" + "\t" + v) == Ok(ParseHexInt32(v).value)
  {
    TwoFields("Kanata", v);
  }

  /** The version field is read as 32-bit hexadecimal: "0004" is the
      supported version and "FFFFFFFF" reads as -1. */
  lemma HexVersionExamples()
    ensures ParseHexInt32("0004") == Some(4) && !VersionWarning(4)
    ensures ParseHexInt32("FFFFFFFF") == Some(-1)
  {
    var z := "0004";
    assert Trim(z) == z && Trim("FFFFFFFF") == "FFFFFFFF";
    assert z[..3] == "000" && z[..3][..2] == "00" && z[..3][..2][..1] == "0";
    assert Hex("0") == 0;
    assert Hex("00") == 0;
    assert Hex("000") == 0;
    assert Hex(z) == 4;
    HexAllF("FFFFFFFF");
    assert Pow16(8) == 0x1_0000_0000;
  }

  /** A header without a version field is refused. */
  lemma HeaderTooShort()
    ensures HeaderVersion("Kanata").Fail?
  {
    NoTabField("Kanata");
  }

  lemma NoTabField(s: string)
    requires '\t' !in s
    ensures Fields(s) == [s]
    decreases |s|
  {
    if |s| > 0 {
      assert '\t' !in s[1..];
      NoTabField(s[1..]);
      assert s == [s[0]] + s[1..];
    }
  }

  /** Two tab-free parts joined by one tab split back into those parts. */
  lemma {:induction false} TwoFields(a: string, v: string)
    requires '\t' !in a && '\t' !in v
    ensures Fields(a + "\t" + v) == [a, v]
    decreases |a|
  {
    var s := a + "\t" + v;
    if |a| == 0 {
      assert s[1..] == v;
      NoTabField(v);
    } else {
      assert s[1..] == a[1..] + "\t" + v;
      assert '\t' !in a[1..];
      TwoFields(a[1..], v);
      assert [a[0]] + a[1..] == a;
    }
  }

  lemma HexAllF(s: string)
    requires forall i :: 0 <= i < |s| ==> s[i] == 'F'
    ensures AllHex(s) && Hex(s) + 1 == Pow16(|s|)
    decreases |s|
  {
    if |s| > 0 {
      HexAllF(s[..|s| - 1]);
    }
  }

  function Pow16(n: nat): nat
  {
    if n == 0 then 1 else 16 * Pow16(n - 1)
  }

  // ---------------------------------------------------------------------
  // Loader state
  // ---------------------------------------------------------------------

  /** The errors the loader records, one per message it formats. The
      overlap message names the stage already open by its stage id. */
  datatype LoadError =
    | TooLarge(text: string, line: nat)
    | NotANumber(text: string, line: nat)
    | UnrecognizedLine(line: nat, text: string)
    | UnknownLabeled(id: nat, line: nat)
    | UnknownLabelType(kind: nat, line: nat)
    | UnknownBegins(id: nat, line: nat)
    | StagesOverlap(openStageId: int, name: string, id: nat, line: nat)
    | UnknownEnds(id: nat, line: nat)
    | UnknownStageFinished(name: string, line: nat)
    | SameRetirement(id: nat, line: nat)
    | UnknownRetired(id: nat, line: nat)
    | UnknownDependency(id: nat, line: nat)

  /** A lane: the stage each live instruction has open in it (None when it
      has none) and the ids given to stage names, in the order first seen. */
  datatype Segment = Segment(segmentId: int, stageMap: map<nat, Option<Stage>>, nameIds: map<string, int>)

  datatype LoaderState = LoaderState(
    insnMap: map<nat, InsnState>,
    insnDB: map<nat, InsnState>,
    retired: set<nat>,
    segments: seq<Segment>,
    errors: seq<LoadError>,
    currentLine: nat,
    currentCycle: int,
    maxInsnId: nat,
    minInsnId: nat)

  /** A new loader: the header is line 1, and the id range starts empty
      (minimum at the largest id, maximum at 0). */
  function Initial(): LoaderState
  {
    LoaderState(map[], map[], {}, [], [], 1, 0, 0, U64 - 1)
  }

  /** The state after a handler, and whether the handler threw. */
  datatype Outcome = Outcome(st: LoaderState, thrown: bool)

  /** The stage ids of a lane are 0, 1, ... in the order names were first
      seen: every id below the count is given to exactly one name. */
  predicate DenseIds(m: map<string, int>)
  {
    (forall n :: n in m ==> 0 <= m[n] < |m|)
    && (forall a, b :: a in m && b in m && m[a] == m[b] ==> a == b)
    && (forall v :: 0 <= v < |m| ==> v in m.Values)
  }

  predicate SegmentOk(s: Segment, k: nat, live: set<nat>)
  {
    s.segmentId == k && s.stageMap.Keys == live && DenseIds(s.nameIds)
  }

  /** What the handlers keep true: every lane has a slot for exactly the
      live instructions, an instruction is filed under its own id, archived
      ids lie within [minInsnId, maxInsnId] and are exactly the retired ids. */
  predicate Consistent(st: LoaderState)
  {
    (forall k :: 0 <= k < |st.segments| ==> SegmentOk(st.segments[k], k, st.insnMap.Keys))
    && (forall id :: id in st.insnMap ==> st.insnMap[id].id == id)
    && (forall id :: id in st.insnDB ==> st.insnDB[id].id == id && st.minInsnId <= id <= st.maxInsnId)
    && st.insnDB.Keys == st.retired
    && st.currentLine >= 1
  }

  lemma {:induction false} InitialConsistent()
    ensures Consistent(Initial())
  {
  }

  // ---------------------------------------------------------------------
  // Lanes
  // ---------------------------------------------------------------------

  /** Every lane gets an empty slot for a new live instruction. */
  function AddLive(segs: seq<Segment>, id: nat): (r: seq<Segment>)
    ensures |r| == |segs|
  {
    seq(|segs|, k requires 0 <= k < |segs| => segs[k].(stageMap := segs[k].stageMap[id := None]))
  }

  /** Every lane forgets a retired instruction. */
  function RemoveLive(segs: seq<Segment>, id: nat): (r: seq<Segment>)
    ensures |r| == |segs|
  {
    seq(|segs|, k requires 0 <= k < |segs| => segs[k].(stageMap := segs[k].stageMap - {id}))
  }

  /** A new lane, with an empty slot for each live instruction. */
  function NewSegment(k: nat, live: set<nat>): Segment
  {
    Segment(k, map id | id in live :: None, map[])
  }

  /** The lanes extended with new ones so that lane k exists. */
  function GrowSegments(segs: seq<Segment>, k: nat, live: set<nat>): (r: seq<Segment>)
    ensures |r| == if k < |segs| then |segs| else k + 1
    ensures forall j :: 0 <= j < |r| ==> r[j] == if j < |segs| then segs[j] else NewSegment(j, live)
    decreases k + 1 - |segs|
  {
    if k < |segs| then segs else GrowSegments(segs + [NewSegment(|segs|, live)], k, live)
  }

  /** GetStageId: the id of a stage name in a lane, a new name getting the
      next id. */
  function StageIdOf(seg: Segment, name: string): (Segment, int)
  {
    if name in seg.nameIds then (seg, seg.nameIds[name])
    else (seg.(nameIds := seg.nameIds[name := |seg.nameIds|]), |seg.nameIds|)
  }

  /** Stage ids follow first-seen order: a known name keeps its id, a new
      name gets the number of names seen before it, no other name changes,
      and the ids stay dense. */
  lemma {:induction false} StageIdsFirstSeen(seg: Segment, name: string)
    requires DenseIds(seg.nameIds)
    ensures var (seg', id) := StageIdOf(seg, name);
      seg'.(nameIds := seg.nameIds) == seg
      && (name in seg.nameIds ==> seg' == seg && id == seg.nameIds[name])
      && (name !in seg.nameIds ==> id == |seg.nameIds| && |seg'.nameIds| == |seg.nameIds| + 1)
      && name in seg'.nameIds && seg'.nameIds[name] == id
      && (forall n :: n in seg.nameIds ==> n in seg'.nameIds && seg'.nameIds[n] == seg.nameIds[n])
      && DenseIds(seg'.nameIds)
  {
    if name !in seg.nameIds {
      var m := seg.nameIds;
      var m' := m[name := |m|];
      assert |m'| == |m| + 1;
      forall v | 0 <= v < |m'|
        ensures v in m'.Values
      {
        if v < |m| {
          assert v in m.Values;
          var n :| n in m && m[n] == v;
          assert n != name && m'[n] == v;
        } else {
          assert m'[name] == v;
        }
      }
      forall a, b | a in m' && b in m' && m'[a] == m'[b]
        ensures a == b
      {
      }
    }
  }

  // ---------------------------------------------------------------------
  // The handlers as steps
  // ---------------------------------------------------------------------

  function Threw(st: LoaderState): Outcome { Outcome(st, true) }
  function Done(st: LoaderState): Outcome { Outcome(st, false) }

  function WithError(st: LoaderState, e: LoadError): LoaderState
  {
    st.(errors := st.errors + [e])
  }

  function SetInsn(st: LoaderState, id: nat, insn: InsnState): LoaderState
  {
    st.(insnMap := st.insnMap[id := insn])
  }

  /** C=: the current cycle is set. */
  function AbsCycleStep(st: LoaderState, cols: seq<string>): Outcome
    requires |cols| >= 2
  {
    var v := ParseLong(cols[1]);
    if v.None? then Threw(st) else Done(st.(currentCycle := v.value))
  }

  /** C: the current cycle advances, wrapping around in 64 bits. */
  function RelCycleStep(st: LoaderState, cols: seq<string>): Outcome
    requires |cols| >= 2
  {
    var v := ParseLong(cols[1]);
    if v.None? then Threw(st) else Done(st.(currentCycle := ToInt64(st.currentCycle + v.value)))
  }

  /** NewInsnAtProcess: a new live instruction fetched at the current cycle,
      with an empty slot in every lane; adding an id that is already live
      throws. */
  function NewInsnStep(st: LoaderState, id: nat): Outcome
  {
    if id in st.insnMap then Threw(st)
    else Done(st.(insnMap := st.insnMap[id := NewInsn().(id := id, startCycle := st.currentCycle)],
                  segments := AddLive(st.segments, id)))
  }

  /** I: a new instruction, then its global serial id and its thread id. */
  function InsnInitStep(st: LoaderState, cols: seq<string>): Outcome
    requires |cols| >= 2
  {
    var p := ParseULong(cols[1]);
    if p.None? then Threw(st)
    else
      var id := p.value;
      var o := NewInsnStep(st, id);
      if o.thrown then o
      else if |cols| < 3 || ParseULong(cols[2]).None? then Threw(o.st)
      else
        var st1 := SetInsn(o.st, id, o.st.insnMap[id].(gsid := ParseULong(cols[2]).value));
        if |cols| < 4 || ParseULong(cols[3]).None? then Threw(st1)
        else Done(SetInsn(st1, id, st1.insnMap[id].(tid := ParseULong(cols[3]).value)))
  }

  /** Every backslash followed by c replaced by r, scanning left to right
      (StringBuilder.Replace of a two-character pattern). */
  function ReplaceEscape(s: string, c: char, r: char): string
    decreases |s|
  {
    if |s| < 2 then s
    else if s[0] == '\\' && s[1] == c then [r] + ReplaceEscape(s[2..], c, r)
    else [s[0]] + ReplaceEscape(s[1..], c, r)
  }

  /** A label with its \n and \t escapes turned into newline and tab. */
  function LabelText(s: string): string
  {
    ReplaceEscape(ReplaceEscape(s, 'n', '\n'), 't', '\t')
  }

  /** L: a label of type 0 extends the name, type 1 the detail, type 2 the
      comment of the stage open in lane 0; another type is an error. */
  function InsnLabelStep(st: LoaderState, cols: seq<string>): Outcome
    requires |cols| >= 2
  {
    var p := ParseULong(cols[1]);
    if p.None? || |cols| < 3 || ParseULong(cols[2]).None? then Threw(st)
    else
      var id := p.value;
      var kind := ParseULong(cols[2]).value;
      if id !in st.insnMap then Done(WithError(st, UnknownLabeled(id, st.currentLine)))
      else if |cols| < 4 then Threw(st)
      else
        var text := LabelText(cols[3]);
        var insn := st.insnMap[id];
        if kind == 0 then Done(SetInsn(st, id, insn.(name := insn.name + text)))
        else if kind == 1 then Done(SetInsn(st, id, insn.(detail := insn.detail + text)))
        else if kind == 2 then
          if |st.segments| == 0 || id !in st.segments[0].stageMap then Threw(st)
          else
            var seg := st.segments[0];
            var open := seg.stageMap[id];
            if open.None? then Done(st)
            else
              var s := open.value;
              Done(st.(segments := st.segments[0 := seg.(stageMap := seg.stageMap[id := Some(s.(comment := s.comment + text))])]))
        else Done(WithError(st, UnknownLabelType(kind, st.currentLine)))
  }

  /** The relative cycle of the current cycle for an instruction: a 64-bit
      difference cast to Int32. */
  function RelCycle(st: LoaderState, insn: InsnState): int
  {
    ToInt32(ToInt64(st.currentCycle - insn.startCycle))
  }

  /** S: the instruction opens a stage in a lane (NewStage, then GetStageId
      and the begin cycle); a stage already open there is an overlap error
      and is replaced. */
  function BeginStageStep(st: LoaderState, cols: seq<string>): Outcome
    requires |cols| >= 2
  {
    var line := st.currentLine;
    var id := FastValue(cols[1]);
    var st1 := st.(errors := st.errors + NumberErrors(cols[1], line));
    if id !in st.insnMap then Done(WithError(st1, UnknownBegins(id, line)))
    else if |cols| < 3 then Threw(st1)
    else
      var segmentId := ToInt32(FastValue(cols[2]));
      var st2 := st1.(errors := st1.errors + NumberErrors(cols[2], line));
      if |cols| < 4 || segmentId < 0 then Threw(st2) else OpenStage(st2, id, segmentId, cols[3])
  }

  /** The stage named opens for a live instruction in a lane, the lanes
      grown to reach it: a stage still open there is reported as an overlap
      and replaced, and the name gets the lane's next stage id when first
      seen. */
  function OpenStage(st: LoaderState, id: nat, segmentId: nat, name: string): Outcome
    requires id in st.insnMap
  {
    var segs := GrowSegments(st.segments, segmentId, st.insnMap.Keys);
    var seg := segs[segmentId];
    if id !in seg.stageMap then Threw(st.(segments := segs))
    else
      var overlap := if seg.stageMap[id].Some? then [StagesOverlap(seg.stageMap[id].value.id, name, id, st.currentLine)] else [];
      var (seg', stageId) := StageIdOf(seg, name);
      var stage := Stage(stageId, RelCycle(st, st.insnMap[id]), 0, "");
      Done(st.(segments := segs[segmentId := seg'.(stageMap := seg'.stageMap[id := Some(stage)])],
               errors := st.errors + overlap))
  }

  /** E: the stage open in the lane gets its end cycle, is appended to the
      instruction's stages of that lane, and the slot is emptied. With no
      stage open, the code as written dereferences null (asWritten) and the
      corrected code logs an unknown-stage error. */
  function EndStageWith(st: LoaderState, cols: seq<string>, asWritten: bool): Outcome
    requires |cols| >= 2
  {
    var line := st.currentLine;
    var id := FastValue(cols[1]);
    var st1 := st.(errors := st.errors + NumberErrors(cols[1], line));
    if id !in st.insnMap then Done(WithError(st1, UnknownEnds(id, line)))
    else if |cols| < 3 then Threw(st1)
    else
      var segmentId := ToInt32(FastValue(cols[2]));
      var st2 := st1.(errors := st1.errors + NumberErrors(cols[2], line));
      if |cols| < 4 || segmentId < 0 || segmentId >= |st.segments| || id !in st.segments[segmentId].stageMap then Threw(st2)
      else CloseStage(st2, id, segmentId, cols[3], asWritten)
  }

  /** The stage open for a live instruction in an existing lane closes at
      the current cycle and is appended to the instruction's stages of that
      lane; the slot empties. */
  function CloseStage(st: LoaderState, id: nat, segmentId: nat, name: string, asWritten: bool): Outcome
    requires id in st.insnMap && segmentId < |st.segments| && id in st.segments[segmentId].stageMap
  {
    var seg := st.segments[segmentId];
    match seg.stageMap[id]
    case None =>
      if asWritten then Threw(st) else Done(WithError(st, UnknownStageFinished(name, st.currentLine)))
    case Some(s) =>
      var insn := st.insnMap[id];
      var closed := WithEndRelCycle(s, RelCycle(st, insn));
      Done(st.(insnMap := st.insnMap[id := AddStageStep(insn, segmentId, closed)],
               segments := st.segments[segmentId := seg.(stageMap := seg.stageMap[id := None])]))
  }

  function EndStageStep(st: LoaderState, cols: seq<string>): Outcome
    requires |cols| >= 2
  {
    EndStageWith(st, cols, false)
  }

  function EndStageStepAsWritten(st: LoaderState, cols: seq<string>): Outcome
    requires |cols| >= 2
  {
    EndStageWith(st, cols, true)
  }

  /** WriteInsnToDB: the id range widens to the instruction, which is then
      archived; archiving an id twice throws. */
  function WriteToDB(st: LoaderState, insn: InsnState): Outcome
  {
    var st1 := st.(maxInsnId := Max(insn.id, st.maxInsnId), minInsnId := Min(insn.id, st.minInsnId));
    if insn.id in st.insnDB then Threw(st1) else Done(st1.(insnDB := st.insnDB[insn.id := insn]))
  }

  /** RemoveInsn: the instruction leaves the live map and every lane. */
  function RemoveInsnStep(st: LoaderState, id: nat): LoaderState
  {
    st.(insnMap := st.insnMap - {id}, segments := RemoveLive(st.segments, id))
  }

  /** R: the instruction gets its end cycle, retire id and flushed flag, is
      archived, marked retired and removed; a repeated or unknown id is an
      error. */
  function RetireStep(st: LoaderState, cols: seq<string>): Outcome
    requires |cols| >= 2
  {
    var p := ParseULong(cols[1]);
    if p.None? then Threw(st)
    else
      var id := p.value;
      if id in st.retired then Done(WithError(st, SameRetirement(id, st.currentLine)))
      else if id !in st.insnMap then Done(WithError(st, UnknownRetired(id, st.currentLine)))
      else RetireLive(st, id, cols)
  }

  /** R for a live instruction: the end cycle, the retire id and the
      flushed flag are set one after the other, then it is archived. */
  function RetireLive(st: LoaderState, id: nat, cols: seq<string>): Outcome
    requires id in st.insnMap
  {
    var e := SetEndCycleStep(st.insnMap[id], st.currentCycle);
    if e.Fail? then Threw(st)
    else if |cols| < 3 || ParseULong(cols[2]).None? then Threw(SetInsn(st, id, e.value))
    else
      var i2 := e.value.(rid := ParseULong(cols[2]).value);
      if |cols| < 4 || ParseULong(cols[3]).None? then Threw(SetInsn(st, id, i2))
      else
        var i3 := i2.(flushed := ParseULong(cols[3]).value != 0);
        Archive(SetInsn(st, id, i3), i3)
  }


  /** A retired instruction is written to the database, marked retired and
      removed from the live map and the lanes. */
  function Archive(st: LoaderState, insn: InsnState): Outcome
  {
    var w := WriteToDB(st, insn);
    if w.thrown || insn.id in w.st.retired then Threw(w.st)
    else Done(RemoveInsnStep(w.st.(retired := w.st.retired + {insn.id}), insn.id))
  }

  /** W: a producer of the instruction; the edge kind defaults to 0 (a
      wakeup) when the line has no fourth field. */
  function DependencyStep(st: LoaderState, cols: seq<string>): Outcome
    requires |cols| >= 2
  {
    var p := ParseULong(cols[1]);
    if p.None? then Threw(st)
    else
      var id := p.value;
      if id !in st.insnMap then Done(WithError(st, UnknownDependency(id, st.currentLine)))
      else if |cols| < 3 || ParseULong(cols[2]).None? then Threw(st)
      else
        var kind := if |cols| > 3 then ParseInt(cols[3]) else Some(0);
        if kind.None? then Threw(st)
        else Done(SetInsn(st, id, AddProducerStep(st.insnMap[id], Relation(ParseULong(cols[2]).value, kind.value))))
  }

  /** What a trace line asks for: a line with fewer than two fields is
      skipped, otherwise the first field names the command. */
  datatype Command = CmdSkip | CmdAbsCycle | CmdRelCycle | CmdInsnInit | CmdLabel
                   | CmdBeginStage | CmdEndStage | CmdRetire | CmdDependency | CmdUnknown

  function CommandOf(cols: seq<string>): (cmd: Command)
    ensures cmd.CmdSkip? <==> |cols| < 2
  {
    if |cols| < 2 then CmdSkip
    else if cols[0] == "C=" then CmdAbsCycle
    else if cols[0] == "C" then CmdRelCycle
    else if cols[0] == "I" then CmdInsnInit
    else if cols[0] == "L" then CmdLabel
    else if cols[0] == "S" then CmdBeginStage
    else if cols[0] == "E" then CmdEndStage
    else if cols[0] == "R" then CmdRetire
    else if cols[0] == "W" then CmdDependency
    else CmdUnknown
  }

  /** ProcessLine: the line counter advances and the command the line
      names is carried out. */
  function ProcessLineStep(st: LoaderState, line: string): Outcome
  {
    var cols := Fields(line);
    Dispatch(st.(currentLine := st.currentLine + 1), CommandOf(cols), cols, line)
  }

  /** The handler a command selects; an unknown command is an error. */
  function Dispatch(st: LoaderState, cmd: Command, cols: seq<string>, line: string): Outcome
    requires cmd.CmdSkip? <==> |cols| < 2
  {
    match cmd
    case CmdSkip => Done(st)
    case CmdAbsCycle => AbsCycleStep(st, cols)
    case CmdRelCycle => RelCycleStep(st, cols)
    case CmdInsnInit => InsnInitStep(st, cols)
    case CmdLabel => InsnLabelStep(st, cols)
    case CmdBeginStage => BeginStageStep(st, cols)
    case CmdEndStage => EndStageStep(st, cols)
    case CmdRetire => RetireStep(st, cols)
    case CmdDependency => DependencyStep(st, cols)
    case CmdUnknown => Done(WithError(st, UnrecognizedLine(st.currentLine, line)))
  }

  /** The command lines in order. An exception ends the loop; it escapes
      the load unless the failing line is the last one. */
  function ProcessLines(st: LoaderState, lines: seq<string>): Outcome
    decreases |lines|
  {
    if |lines| == 0 then Done(st)
    else
      var o := ProcessLineStep(st, lines[0]);
      if o.thrown then Outcome(o.st, |lines| > 1) else ProcessLines(o.st, lines[1..])
  }

  /** The first line of a list is processed first; an exception from it
      escapes exactly when more lines follow. */
  lemma {:induction false} ProcessLinesCons(st: LoaderState, line: string, rest: seq<string>)
    ensures var o := ProcessLineStep(st, line);
      ProcessLines(st, [line] + rest) == if o.thrown then Outcome(o.st, |rest| > 0) else ProcessLines(o.st, rest)
  {
    assert ([line] + rest)[0] == line && ([line] + rest)[1..] == rest;
  }

  // ---------------------------------------------------------------------
  // What the handlers keep and do
  // ---------------------------------------------------------------------

  lemma {:induction false} SetInsnConsistent(st: LoaderState, id: nat, insn: InsnState)
    requires Consistent(st) && id in st.insnMap && insn.id == id
    ensures Consistent(SetInsn(st, id, insn))
  {
    var st' := SetInsn(st, id, insn);
    assert st'.insnMap.Keys == st.insnMap.Keys;
  }

  lemma {:induction false} NewInsnConsistent(st: LoaderState, id: nat)
    requires Consistent(st)
    ensures Consistent(NewInsnStep(st, id).st)
    ensures !NewInsnStep(st, id).thrown ==> id in NewInsnStep(st, id).st.insnMap
  {
    if id !in st.insnMap {
      var st' := NewInsnStep(st, id).st;
      forall k | 0 <= k < |st'.segments|
        ensures SegmentOk(st'.segments[k], k, st'.insnMap.Keys)
      {
        assert SegmentOk(st.segments[k], k, st.insnMap.Keys);
      }
    }
  }

  lemma {:induction false} InsnInitConsistent(st: LoaderState, cols: seq<string>)
    requires Consistent(st) && |cols| >= 2
    ensures Consistent(InsnInitStep(st, cols).st)
  {
    var p := ParseULong(cols[1]);
    if p.Some? {
      var id := p.value;
      NewInsnConsistent(st, id);
      var o := NewInsnStep(st, id);
      if !o.thrown && |cols| >= 3 && ParseULong(cols[2]).Some? {
        var st1 := SetInsn(o.st, id, o.st.insnMap[id].(gsid := ParseULong(cols[2]).value));
        SetInsnConsistent(o.st, id, o.st.insnMap[id].(gsid := ParseULong(cols[2]).value));
        if |cols| >= 4 && ParseULong(cols[3]).Some? {
          SetInsnConsistent(st1, id, st1.insnMap[id].(tid := ParseULong(cols[3]).value));
        }
      }
    }
  }

  lemma {:induction false} InsnLabelConsistent(st: LoaderState, cols: seq<string>)
    requires Consistent(st) && |cols| >= 2
    ensures Consistent(InsnLabelStep(st, cols).st)
  {
    var p := ParseULong(cols[1]);
    if p.Some? && |cols| >= 4 && ParseULong(cols[2]).Some? && p.value in st.insnMap {
      var id := p.value;
      var insn := st.insnMap[id];
      var text := LabelText(cols[3]);
      var kind := ParseULong(cols[2]).value;
      if kind == 0 {
        SetInsnConsistent(st, id, insn.(name := insn.name + text));
      } else if kind == 1 {
        SetInsnConsistent(st, id, insn.(detail := insn.detail + text));
      } else if kind == 2 && |st.segments| > 0 && id in st.segments[0].stageMap {
        var st' := InsnLabelStep(st, cols).st;
        assert SegmentOk(st.segments[0], 0, st.insnMap.Keys);
        forall k | 0 <= k < |st'.segments|
          ensures SegmentOk(st'.segments[k], k, st'.insnMap.Keys)
        {
          assert SegmentOk(st.segments[k], k, st.insnMap.Keys);
        }
      }
    }
  }

  lemma {:induction false} GrowSegmentsOk(segs: seq<Segment>, k: nat, live: set<nat>)
    requires forall j :: 0 <= j < |segs| ==> SegmentOk(segs[j], j, live)
    ensures forall j :: 0 <= j < |GrowSegments(segs, k, live)| ==> SegmentOk(GrowSegments(segs, k, live)[j], j, live)
  {
    var r := GrowSegments(segs, k, live);
    forall j | 0 <= j < |r|
      ensures SegmentOk(r[j], j, live)
    {
      if j >= |segs| {
        assert r[j] == NewSegment(j, live);
        assert NewSegment(j, live).stageMap.Keys == live;
      }
    }
  }

  lemma {:induction false} BeginStageConsistent(st: LoaderState, cols: seq<string>)
    requires Consistent(st) && |cols| >= 2
    ensures Consistent(BeginStageStep(st, cols).st)
  {
    var id := FastValue(cols[1]);
    if id in st.insnMap && |cols| >= 4 && ToInt32(FastValue(cols[2])) >= 0 {
      var st2 := st.(errors := st.errors + NumberErrors(cols[1], st.currentLine) + NumberErrors(cols[2], st.currentLine));
      OpenStageConsistent(st2, id, ToInt32(FastValue(cols[2])), cols[3]);
    }
  }

  lemma {:induction false} OpenStageConsistent(st: LoaderState, id: nat, segmentId: nat, name: string)
    requires Consistent(st) && id in st.insnMap
    ensures Consistent(OpenStage(st, id, segmentId, name).st)
  {
    var live := st.insnMap.Keys;
    GrowSegmentsOk(st.segments, segmentId, live);
    var segs := GrowSegments(st.segments, segmentId, live);
    var seg := segs[segmentId];
    assert SegmentOk(seg, segmentId, live);
    StageIdsFirstSeen(seg, name);
    var st' := OpenStage(st, id, segmentId, name).st;
    forall k | 0 <= k < |st'.segments|
      ensures SegmentOk(st'.segments[k], k, st'.insnMap.Keys)
    {
      assert SegmentOk(segs[k], k, live);
    }
  }

  lemma {:induction false} EndStageConsistent(st: LoaderState, cols: seq<string>, asWritten: bool)
    requires Consistent(st) && |cols| >= 2
    ensures Consistent(EndStageWith(st, cols, asWritten).st)
  {
    var id := FastValue(cols[1]);
    var segmentId := if |cols| >= 3 then ToInt32(FastValue(cols[2])) else -1;
    if id in st.insnMap && |cols| >= 4 && 0 <= segmentId < |st.segments| && id in st.segments[segmentId].stageMap {
      var st2 := st.(errors := st.errors + NumberErrors(cols[1], st.currentLine) + NumberErrors(cols[2], st.currentLine));
      CloseStageConsistent(st2, id, segmentId, cols[3], asWritten);
    }
  }

  lemma {:induction false} CloseStageConsistent(st: LoaderState, id: nat, segmentId: nat, name: string, asWritten: bool)
    requires Consistent(st) && id in st.insnMap && segmentId < |st.segments| && id in st.segments[segmentId].stageMap
    ensures Consistent(CloseStage(st, id, segmentId, name, asWritten).st)
  {
    if st.segments[segmentId].stageMap[id].Some? {
      var insn := st.insnMap[id];
      var s := st.segments[segmentId].stageMap[id].value;
      AddStageAppends(insn, segmentId, WithEndRelCycle(s, RelCycle(st, insn)));
      var st' := CloseStage(st, id, segmentId, name, asWritten).st;
      assert st'.insnMap.Keys == st.insnMap.Keys;
      forall k | 0 <= k < |st'.segments|
        ensures SegmentOk(st'.segments[k], k, st'.insnMap.Keys)
      {
        assert SegmentOk(st.segments[k], k, st.insnMap.Keys);
      }
    }
  }

  lemma {:induction false} RetireConsistent(st: LoaderState, cols: seq<string>)
    requires Consistent(st) && |cols| >= 2
    ensures Consistent(RetireStep(st, cols).st)
  {
    var p := ParseULong(cols[1]);
    if p.Some? && p.value !in st.retired && p.value in st.insnMap {
      var id := p.value;
      var e := SetEndCycleStep(st.insnMap[id], st.currentCycle);
      if e.Ok? {
        SetInsnConsistent(st, id, e.value);
        if |cols| >= 3 && ParseULong(cols[2]).Some? {
          var i2 := e.value.(rid := ParseULong(cols[2]).value);
          SetInsnConsistent(st, id, i2);
          if |cols| >= 4 && ParseULong(cols[3]).Some? {
            var i3 := i2.(flushed := ParseULong(cols[3]).value != 0);
            SetInsnConsistent(st, id, i3);
            ArchiveConsistent(SetInsn(st, id, i3), i3);
          }
        }
      }
    }
  }

  /** Archiving a live, not yet retired instruction succeeds and keeps the
      loader consistent. */
  lemma {:induction false} ArchiveConsistent(st: LoaderState, insn: InsnState)
    requires Consistent(st) && insn.id in st.insnMap && insn.id !in st.retired
    ensures !Archive(st, insn).thrown && Consistent(Archive(st, insn).st)
  {
    var id := insn.id;
    var w := WriteToDB(st, insn).st;
    assert w.insnDB == st.insnDB[id := insn];
    var st' := RemoveInsnStep(w.(retired := st.retired + {id}), id);
    assert st'.insnDB.Keys == st'.retired;
    forall k | 0 <= k < |st'.segments|
      ensures SegmentOk(st'.segments[k], k, st'.insnMap.Keys)
    {
      assert SegmentOk(st.segments[k], k, st.insnMap.Keys);
    }
  }

  lemma {:induction false} DependencyConsistent(st: LoaderState, cols: seq<string>)
    requires Consistent(st) && |cols| >= 2
    ensures Consistent(DependencyStep(st, cols).st)
  {
    var p := ParseULong(cols[1]);
    if p.Some? && p.value in st.insnMap && |cols| >= 3 && ParseULong(cols[2]).Some? {
      var kind := if |cols| > 3 then ParseInt(cols[3]) else Some(0);
      if kind.Some? {
        var insn := st.insnMap[p.value];
        AddProducerDedups(insn, Relation(ParseULong(cols[2]).value, kind.value));
        SetInsnConsistent(st, p.value, AddProducerStep(insn, Relation(ParseULong(cols[2]).value, kind.value)));
      }
    }
  }

  /** Every line keeps the loader consistent, whether or not its handler
      throws: in particular every lane has exactly one slot per live
      instruction, so an instruction has at most one open stage per lane. */
  lemma {:induction false} ProcessLineConsistent(st: LoaderState, line: string)
    requires Consistent(st)
    ensures Consistent(ProcessLineStep(st, line).st)
  {
    var cols := Fields(line);
    var st1 := st.(currentLine := st.currentLine + 1);
    BumpConsistent(st);
    DispatchConsistent(st1, CommandOf(cols), cols, line);
    ProcessLineUnfold(st, line);
  }

  lemma {:induction false} ProcessLineUnfold(st: LoaderState, line: string)
    ensures ProcessLineStep(st, line)
         == Dispatch(st.(currentLine := st.currentLine + 1), CommandOf(Fields(line)), Fields(line), line)
  {
  }

  lemma {:induction false} BumpConsistent(st: LoaderState)
    requires Consistent(st)
    ensures Consistent(st.(currentLine := st.currentLine + 1))
  {
  }

  lemma {:induction false} DispatchConsistent(st: LoaderState, cmd: Command, cols: seq<string>, line: string)
    requires Consistent(st) && (cmd.CmdSkip? <==> |cols| < 2)
    ensures Consistent(Dispatch(st, cmd, cols, line).st)
  {
    match cmd
    case CmdInsnInit => InsnInitConsistent(st, cols);
    case CmdLabel => InsnLabelConsistent(st, cols);
    case CmdBeginStage => BeginStageConsistent(st, cols);
    case CmdEndStage => EndStageConsistent(st, cols, false);
    case CmdRetire => RetireConsistent(st, cols);
    case CmdDependency => DependencyConsistent(st, cols);
    case _ =>
  }

  lemma {:induction false} ProcessLinesConsistent(st: LoaderState, lines: seq<string>)
    requires Consistent(st)
    ensures Consistent(ProcessLines(st, lines).st)
    decreases |lines|
  {
    if |lines| > 0 {
      ProcessLineConsistent(st, lines[0]);
      var o := ProcessLineStep(st, lines[0]);
      if !o.thrown {
        ProcessLinesConsistent(o.st, lines[1..]);
      }
    }
  }

  // ---------------------------------------------------------------------
  // What the handlers do
  // ---------------------------------------------------------------------

  /** ProcessLine: a line with fewer than two fields only advances the line
      counter; a line naming no command adds exactly one error and changes
      nothing else. */
  lemma {:induction false} LineRules(st: LoaderState, line: string)
    ensures |Fields(line)| < 2 ==>
      ProcessLineStep(st, line) == Done(st.(currentLine := st.currentLine + 1))
    ensures |Fields(line)| >= 2 && CommandOf(Fields(line)).CmdUnknown? ==>
      ProcessLineStep(st, line)
        == Done(st.(currentLine := st.currentLine + 1,
                    errors := st.errors + [UnrecognizedLine(st.currentLine + 1, line)]))
  {
    ProcessLineUnfold(st, line);
  }

  /** The command codes: a line of two or more fields selects the command
      its first field names, and any other first field is unknown. */
  lemma {:induction false} CommandCodes(cols: seq<string>)
    requires |cols| >= 2
    ensures CommandOf(cols).CmdAbsCycle? <==> cols[0] == "C="
    ensures CommandOf(cols).CmdRelCycle? <==> cols[0] == "C"
    ensures CommandOf(cols).CmdInsnInit? <==> cols[0] == "I"
    ensures CommandOf(cols).CmdLabel? <==> cols[0] == "L"
    ensures CommandOf(cols).CmdBeginStage? <==> cols[0] == "S"
    ensures CommandOf(cols).CmdEndStage? <==> cols[0] == "E"
    ensures CommandOf(cols).CmdRetire? <==> cols[0] == "R"
    ensures CommandOf(cols).CmdDependency? <==> cols[0] == "W"
    ensures CommandOf(cols).CmdUnknown? <==>
      cols[0] !in {"C=", "C", "I", "L", "S", "E", "R", "W"}
  {
  }

  /** NewStage: with the instruction live, the lanes grow to reach the lane
      named, the slot of the instruction in it holds a new stage that began
      at the current relative cycle and has the name's id, an open stage
      there is reported once as an overlap, and no other lane or slot
      changes. */
  lemma {:induction false} OpenStageRules(st: LoaderState, id: nat, segmentId: nat, name: string)
    requires Consistent(st) && id in st.insnMap
    ensures var o := OpenStage(st, id, segmentId, name);
      var before := if segmentId < |st.segments| then st.segments[segmentId].stageMap[id] else None;
      var lane := o.st.segments[segmentId];
      !o.thrown
      && |o.st.segments| == Max(|st.segments|, segmentId + 1)
      && lane.stageMap[id] == Some(Stage(lane.nameIds[name], RelCycle(st, st.insnMap[id]), 0, ""))
      && o.st.errors == st.errors + (if before.Some? then [StagesOverlap(before.value.id, name, id, st.currentLine)] else [])
      && o.st.insnMap == st.insnMap
      && (forall j :: 0 <= j < |st.segments| && j != segmentId ==> o.st.segments[j] == st.segments[j])
      && (forall j :: j in lane.stageMap && j != id ==>
            lane.stageMap[j] == if segmentId < |st.segments| then st.segments[segmentId].stageMap[j] else None)
  {
    var live := st.insnMap.Keys;
    GrowSegmentsOk(st.segments, segmentId, live);
    var segs := GrowSegments(st.segments, segmentId, live);
    assert SegmentOk(segs[segmentId], segmentId, live);
    StageIdsFirstSeen(segs[segmentId], name);
  }

  /** EndStage: the stage open for a live instruction closes with its end
      cycle at the current relative cycle, is appended to the instruction's
      stages of that lane, and the slot empties. */
  lemma {:induction false} CloseStageRules(st: LoaderState, id: nat, segmentId: nat, name: string, asWritten: bool)
    requires id in st.insnMap && segmentId < |st.segments| && id in st.segments[segmentId].stageMap
    requires st.segments[segmentId].stageMap[id].Some?
    ensures var o := CloseStage(st, id, segmentId, name, asWritten);
      var open := st.segments[segmentId].stageMap[id].value;
      var insn := st.insnMap[id];
      var stages := o.st.insnMap[id].stageSegments;
      !o.thrown
      && segmentId < |stages|
      && o.st.segments[segmentId].stageMap == st.segments[segmentId].stageMap[id := None]
      && o.st.errors == st.errors
      && exists closed: Stage ::
           stages[segmentId] == SegmentOf(insn.stageSegments, segmentId) + [closed]
           && closed.id == open.id && closed.beginRelCycle == open.beginRelCycle
           && EndRelCycle(closed) == RelCycle(st, insn)
  {
    var insn := st.insnMap[id];
    var open := st.segments[segmentId].stageMap[id].value;
    var closed := WithEndRelCycle(open, RelCycle(st, insn));
    AddStageAppends(insn, segmentId, closed);
    EndRelCycleRoundTrip(open, RelCycle(st, insn));
  }

  /** The corrected EndStage logs an error for a lane with no open stage;
      the code as written dereferences the missing stage and throws. */
  lemma {:induction false} EndStageNoOpenStage(st: LoaderState, id: nat, segmentId: nat, name: string)
    requires id in st.insnMap && segmentId < |st.segments| && id in st.segments[segmentId].stageMap
    requires st.segments[segmentId].stageMap[id].None?
    ensures CloseStage(st, id, segmentId, name, true) == Threw(st)
    ensures CloseStage(st, id, segmentId, name, false) == Done(WithError(st, UnknownStageFinished(name, st.currentLine)))
  {
  }

  /** WriteInsnToDB and RemoveInsn after a retirement: the instruction is
      archived under its id, the id range widens to it, it leaves the live
      map and every lane, and it is marked retired. */
  lemma {:induction false} ArchiveRules(st: LoaderState, insn: InsnState)
    requires insn.id !in st.insnDB && insn.id !in st.retired
    ensures var o := Archive(st, insn);
      !o.thrown
      && o.st.insnDB == st.insnDB[insn.id := insn]
      && o.st.maxInsnId == Max(insn.id, st.maxInsnId) && o.st.minInsnId == Min(insn.id, st.minInsnId)
      && o.st.insnMap == st.insnMap - {insn.id}
      && |o.st.segments| == |st.segments|
      && (forall k :: 0 <= k < |st.segments| ==>
            o.st.segments[k].stageMap == st.segments[k].stageMap - {insn.id}
            && o.st.segments[k].nameIds == st.segments[k].nameIds)
      && o.st.retired == st.retired + {insn.id}
      && o.st.errors == st.errors
  {
  }

  /** R: a repeated or unknown id adds one error and changes nothing else;
      a live id whose fields parse is archived with its end cycle, retire id
      and flushed flag set. */
  lemma {:induction false} RetireRules(st: LoaderState, cols: seq<string>)
    requires |cols| >= 2 && ParseULong(cols[1]).Some?
    ensures var id := ParseULong(cols[1]).value;
      id in st.retired ==> RetireStep(st, cols) == Done(WithError(st, SameRetirement(id, st.currentLine)))
    ensures var id := ParseULong(cols[1]).value;
      id !in st.retired && id !in st.insnMap ==>
        RetireStep(st, cols) == Done(WithError(st, UnknownRetired(id, st.currentLine)))
    ensures var id := ParseULong(cols[1]).value;
      id !in st.retired && id in st.insnMap
      && SetEndCycleStep(st.insnMap[id], st.currentCycle).Ok?
      && |cols| >= 4 && ParseULong(cols[2]).Some? && ParseULong(cols[3]).Some? ==>
        var done := SetEndCycleStep(st.insnMap[id], st.currentCycle).value
                      .(rid := ParseULong(cols[2]).value, flushed := ParseULong(cols[3]).value != 0);
        RetireStep(st, cols) == Archive(SetInsn(st, id, done), done)
        && (Consistent(st) ==> done.id == id && !RetireStep(st, cols).thrown)
  {
    var id := ParseULong(cols[1]).value;
    if Consistent(st) && id !in st.retired && id in st.insnMap {
      var e := SetEndCycleStep(st.insnMap[id], st.currentCycle);
      if e.Ok? && |cols| >= 4 && ParseULong(cols[2]).Some? && ParseULong(cols[3]).Some? {
        var done := e.value.(rid := ParseULong(cols[2]).value, flushed := ParseULong(cols[3]).value != 0);
        ArchiveRules(SetInsn(st, id, done), done);
      }
    }
  }

  /** W: with no fourth field the edge kind is 0 (a wakeup). */
  lemma {:induction false} DependencyDefaultKind(st: LoaderState, cols: seq<string>)
    requires |cols| == 3 && ParseULong(cols[1]).Some? && ParseULong(cols[1]).value in st.insnMap
    requires ParseULong(cols[2]).Some?
    ensures var id := ParseULong(cols[1]).value;
      DependencyStep(st, cols)
        == Done(SetInsn(st, id, AddProducerStep(st.insnMap[id], Relation(ParseULong(cols[2]).value, 0))))
  {
  }

  // ---------------------------------------------------------------------
  // The end of the trace
  // ---------------------------------------------------------------------

  /** CloseStages for one instruction: the stages it still has open in
      lanes 0..n-1 end at the current cycle and are appended, lane by lane. */
  function CloseLanes(st: LoaderState, insn: InsnState, n: nat): InsnState
    requires n <= |st.segments|
    decreases n
  {
    if n == 0 then insn
    else
      var acc := CloseLanes(st, insn, n - 1);
      var lane := st.segments[n - 1].stageMap;
      if insn.id in lane && lane[insn.id].Some? then
        AddStageStep(acc, n - 1, WithEndRelCycle(lane[insn.id].value, RelCycle(st, insn)))
      else acc
  }

  /** The live instructions with all their open stages closed. */
  function ClosedAll(st: LoaderState): map<nat, InsnState>
  {
    map id | id in st.insnMap :: CloseLanes(st, st.insnMap[id], |st.segments|)
  }

  /** The order a dictionary's keys are visited in: each key once. */
  predicate IsOrder(order: seq<nat>, keys: set<nat>)
  {
    (forall i, j :: 0 <= i < j < |order| ==> order[i] != order[j])
    && (forall i :: 0 <= i < |order| ==> order[i] in keys)
    && (forall id :: id in keys ==> id in order)
  }

  /** WriteInsnToDB for the live instructions in the given order; the
      first one already archived throws. */
  function ArchiveAll(st: LoaderState, ids: seq<nat>): Outcome
    requires forall i :: 0 <= i < |ids| ==> ids[i] in st.insnMap
    decreases |ids|
  {
    if |ids| == 0 then Done(st)
    else
      var o := WriteToDB(st, st.insnMap[ids[0]]);
      if o.thrown then o else ArchiveAll(o.st, ids[1..])
  }

  /** CloseStages: every open stage is closed at the final cycle, then every
      live instruction is written to the database, in the order given. */
  function CloseStagesStep(st: LoaderState, order: seq<nat>): Outcome
    requires IsOrder(order, st.insnMap.Keys)
  {
    ArchiveAll(st.(insnMap := ClosedAll(st)), order)
  }

  /** Closing the lanes of one instruction appends to each lane's list
      exactly the stage open there, ended at the current relative cycle;
      nothing else about the instruction changes. */
  lemma {:induction false} CloseLanesAppends(st: LoaderState, insn: InsnState, n: nat)
    requires n <= |st.segments|
    ensures var r := CloseLanes(st, insn, n);
      r.(stageSegments := insn.stageSegments) == insn
      && (forall k :: n <= k ==> SegmentOf(r.stageSegments, k) == SegmentOf(insn.stageSegments, k))
      && (forall k :: 0 <= k < n ==>
            var lane := st.segments[k].stageMap;
            if insn.id in lane && lane[insn.id].Some? then
              SegmentOf(r.stageSegments, k)
                == SegmentOf(insn.stageSegments, k) + [WithEndRelCycle(lane[insn.id].value, RelCycle(st, insn))]
            else SegmentOf(r.stageSegments, k) == SegmentOf(insn.stageSegments, k))
    decreases n
  {
    if n > 0 {
      CloseLanesAppends(st, insn, n - 1);
      var acc := CloseLanes(st, insn, n - 1);
      var lane := st.segments[n - 1].stageMap;
      if insn.id in lane && lane[insn.id].Some? {
        var closed := WithEndRelCycle(lane[insn.id].value, RelCycle(st, insn));
        AddStageSegments(acc, n - 1, closed);
      }
    }
  }

  /** AddStage seen through SegmentOf: one list grows by the stage, the
      others and every other field stay as they were. */
  lemma AddStageSegments(d: InsnState, segmentId: nat, s: Stage)
    ensures var r := AddStageStep(d, segmentId, s);
      r.(stageSegments := d.stageSegments) == d
      && SegmentOf(r.stageSegments, segmentId) == SegmentOf(d.stageSegments, segmentId) + [s]
      && (forall k :: k != segmentId ==> SegmentOf(r.stageSegments, k) == SegmentOf(d.stageSegments, k))
  {
    AddStageAppends(d, segmentId, s);
    var r := AddStageStep(d, segmentId, s);
    forall k: nat | k != segmentId
      ensures SegmentOf(r.stageSegments, k) == SegmentOf(d.stageSegments, k)
    {
      if k >= |r.stageSegments| {
        assert k >= |d.stageSegments|;
      }
    }
  }

  /** One lane more: the stage open in that lane is appended, ended at the
      cycle relative to the instruction's start; without one nothing
      changes. */
  lemma {:induction false} CloseLanesNext(st: LoaderState, insn: InsnState, k: nat, cycle: int, slot: Option<Stage>,
                                           acc: InsnState, next: InsnState)
    requires k < |st.segments| && cycle == st.currentCycle
    requires insn.id in st.segments[k].stageMap && st.segments[k].stageMap[insn.id] == slot
    requires acc == CloseLanes(st, insn, k) && next == CloseLanes(st, insn, k + 1)
    ensures next == if slot.Some? then AddStageStep(acc, k, WithEndRelCycle(slot.value, ToInt32(ToInt64(cycle - acc.startCycle))))
                    else acc
  {
    CloseLanesKeeps(st, insn, k);
  }

  /** Closing lanes keeps an instruction's id and start cycle. */
  lemma {:induction false} CloseLanesKeeps(st: LoaderState, insn: InsnState, n: nat)
    requires n <= |st.segments|
    ensures CloseLanes(st, insn, n).id == insn.id && CloseLanes(st, insn, n).startCycle == insn.startCycle
    decreases n
  {
    if n > 0 {
      CloseLanesKeeps(st, insn, n - 1);
    }
  }

  /** Archiving in order changes only the database and the id range, and
      the range only widens. */
  lemma {:induction false} ArchiveAllFrame(st: LoaderState, ids: seq<nat>)
    requires forall i :: 0 <= i < |ids| ==> ids[i] in st.insnMap
    ensures var o := ArchiveAll(st, ids);
      o.st.(insnDB := st.insnDB, minInsnId := st.minInsnId, maxInsnId := st.maxInsnId) == st
      && o.st.minInsnId <= st.minInsnId && st.maxInsnId <= o.st.maxInsnId
      && st.insnDB.Keys <= o.st.insnDB.Keys
    decreases |ids|
  {
    if |ids| > 0 {
      var o := WriteToDB(st, st.insnMap[ids[0]]);
      if !o.thrown {
        ArchiveAllFrame(o.st, ids[1..]);
      }
    }
  }

  /** Archiving one id more: while nothing has thrown, the next id is
      written to the database from the state reached, and an id that throws
      ends the walk, whatever ids follow it. */
  lemma {:induction false} ArchiveAllSnoc(st: LoaderState, ids: seq<nat>, id: nat, rest: seq<nat>)
    requires forall i :: 0 <= i < |ids| ==> ids[i] in st.insnMap
    requires id in st.insnMap && forall i :: 0 <= i < |rest| ==> rest[i] in st.insnMap
    requires !ArchiveAll(st, ids).thrown
    ensures ArchiveAll(st, ids).st.insnMap == st.insnMap
    ensures var o := WriteToDB(ArchiveAll(st, ids).st, st.insnMap[id]);
      ArchiveAll(st, ids + [id] + rest) == if o.thrown then o else ArchiveAll(o.st, rest)
    decreases |ids|
  {
    ArchiveAllFrame(st, ids);
    if |ids| == 0 {
      assert ids + [id] + rest == [id] + rest;
      assert ([id] + rest)[1..] == rest;
    } else {
      var o := WriteToDB(st, st.insnMap[ids[0]]);
      ArchiveAllSnoc(o.st, ids[1..], id, rest);
      assert (ids + [id] + rest)[1..] == ids[1..] + [id] + rest;
    }
  }

  /** Archiving in order throws exactly when some instruction is already
      in the database. */
  lemma {:induction false} ArchiveAllThrows(st: LoaderState, ids: seq<nat>)
    requires forall i :: 0 <= i < |ids| ==> ids[i] in st.insnMap && st.insnMap[ids[i]].id == ids[i]
    requires forall i, j :: 0 <= i < j < |ids| ==> ids[i] != ids[j]
    ensures ArchiveAll(st, ids).thrown <==> exists i :: 0 <= i < |ids| && ids[i] in st.insnDB
    decreases |ids|
  {
    if |ids| > 0 {
      var o := WriteToDB(st, st.insnMap[ids[0]]);
      if !o.thrown {
        ArchiveAllThrows(o.st, ids[1..]);
        if ArchiveAll(o.st, ids[1..]).thrown {
          var i :| 0 <= i < |ids[1..]| && ids[1..][i] in o.st.insnDB;
          assert ids[i + 1] in st.insnDB;
        } else {
          assert forall i :: 0 < i < |ids| ==> ids[i] == ids[1..][i - 1];
        }
      }
    }
  }

  /** When archiving in order succeeds, every instruction is archived under
      its id, what was archived before stays, nothing else is added, and the
      id range covers the new entries. */
  lemma {:induction false} ArchiveAllStores(st: LoaderState, ids: seq<nat>)
    requires forall i :: 0 <= i < |ids| ==> ids[i] in st.insnMap && st.insnMap[ids[i]].id == ids[i]
    requires !ArchiveAll(st, ids).thrown
    ensures var db := ArchiveAll(st, ids).st.insnDB;
      (forall i :: 0 <= i < |ids| ==> ids[i] in db && db[ids[i]] == st.insnMap[ids[i]])
      && (forall id :: id in st.insnDB ==> id in db && db[id] == st.insnDB[id])
      && (forall id :: id in db ==> id in st.insnDB || id in ids)
    decreases |ids|
  {
    if |ids| > 0 {
      var o := WriteToDB(st, st.insnMap[ids[0]]);
      ArchiveAllStores(o.st, ids[1..]);
      ArchiveAllFrame(o.st, ids[1..]);
      var r := ArchiveAll(o.st, ids[1..]);
      forall i | 0 < i < |ids|
        ensures ids[i] in r.st.insnDB && r.st.insnDB[ids[i]] == st.insnMap[ids[i]]
      {
        assert ids[1..][i - 1] == ids[i];
      }
      forall id | id in r.st.insnDB
        ensures id in st.insnDB || id in ids
      {
        if id !in o.st.insnDB {
          var i :| 0 <= i < |ids[1..]| && ids[1..][i] == id;
          assert ids[i + 1] == id;
        }
      }
    }
  }

  /** The id range after archiving in order covers every id archived. */
  lemma {:induction false} ArchiveAllBounds(st: LoaderState, ids: seq<nat>)
    requires forall i :: 0 <= i < |ids| ==> ids[i] in st.insnMap && st.insnMap[ids[i]].id == ids[i]
    requires !ArchiveAll(st, ids).thrown
    ensures var o := ArchiveAll(st, ids).st;
      forall i :: 0 <= i < |ids| ==> o.minInsnId <= ids[i] <= o.maxInsnId
    decreases |ids|
  {
    if |ids| > 0 {
      var o := WriteToDB(st, st.insnMap[ids[0]]);
      ArchiveAllBounds(o.st, ids[1..]);
      ArchiveAllFrame(o.st, ids[1..]);
      assert forall i :: 0 < i < |ids| ==> ids[i] == ids[1..][i - 1];
    }
  }

  /** CloseStages throws exactly when a live instruction was archived
      before (an id retired and then fetched again); otherwise every live
      instruction is archived with its open stages closed, under its id and
      within the id range, and the earlier archive is kept. */
  lemma {:induction false} CloseStagesArchivesAll(st: LoaderState, order: seq<nat>)
    requires Consistent(st) && IsOrder(order, st.insnMap.Keys)
    ensures CloseStagesStep(st, order).thrown <==> exists id :: id in st.insnMap && id in st.insnDB
    ensures var o := CloseStagesStep(st, order).st;
      !CloseStagesStep(st, order).thrown ==>
        (forall id :: id in st.insnMap ==>
           id in o.insnDB && o.insnDB[id] == CloseLanes(st, st.insnMap[id], |st.segments|)
           && o.minInsnId <= id <= o.maxInsnId)
        && (forall id :: id in st.insnDB ==> id in o.insnDB && o.insnDB[id] == st.insnDB[id])
        && (forall id :: id in o.insnDB ==> id in st.insnDB || id in st.insnMap)
  {
    var st' := st.(insnMap := ClosedAll(st));
    forall i | 0 <= i < |order|
      ensures order[i] in st'.insnMap && st'.insnMap[order[i]].id == order[i]
    {
      CloseLanesAppends(st, st.insnMap[order[i]], |st.segments|);
    }
    ArchiveAllThrows(st', order);
    if !ArchiveAll(st', order).thrown {
      ArchiveAllStores(st', order);
      ArchiveAllBounds(st', order);
      forall id | id in st.insnMap
        ensures exists i :: 0 <= i < |order| && order[i] == id
      {
        assert id in order;
      }
    }
  }

  // ---------------------------------------------------------------------
  // The summary for the view
  // ---------------------------------------------------------------------

  /** The id range of the archive and the stage names of each lane. */
  datatype LogInfo = LogInfo(minInsnId: nat, maxInsnId: nat, stageNames: seq<seq<Option<string>>>)

  /** The names of a lane listed by stage id: every name sits at its id,
      and a slot holds a name only at that name's id. */
  predicate NamesListed(names: seq<Option<string>>, ids: map<string, int>)
  {
    |names| == |ids|
    && (forall n :: n in ids ==> 0 <= ids[n] < |names| && names[ids[n]] == Some(n))
    && (forall i :: 0 <= i < |names| && names[i].Some? ==> names[i].value in ids && ids[names[i].value] == i)
  }

  /** UpdateLogInfo's result for a loader state. */
  predicate InfoOf(info: LogInfo, st: LoaderState)
  {
    info.minInsnId == st.minInsnId && info.maxInsnId == st.maxInsnId
    && |info.stageNames| == |st.segments|
    && forall k :: 0 <= k < |st.segments| ==> NamesListed(info.stageNames[k], st.segments[k].nameIds)
  }

  /** With dense stage ids the listing has a name in every slot and does not
      depend on the order the names were visited in. */
  lemma {:induction false} NamesListedUnique(a: seq<Option<string>>, b: seq<Option<string>>, ids: map<string, int>)
    requires DenseIds(ids) && NamesListed(a, ids) && NamesListed(b, ids)
    ensures a == b
    ensures forall i :: 0 <= i < |a| ==> a[i].Some?
  {
    forall i | 0 <= i < |a|
      ensures a[i] == b[i] && a[i].Some?
    {
      assert i in ids.Values;
      var n :| n in ids && ids[n] == i;
    }
  }
}
