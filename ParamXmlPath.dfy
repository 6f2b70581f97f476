/** The XPath-like parameter paths: a path is a list of nodes (an element,
    an element with an array index, an attribute, a count function or
    text()), parsed from the tokens of a path string and rendered back
    with ToString. */
module ParamXmlPath {
  import opened Wrappers

  datatype NodeType = NT_NORMAL | NT_ATTRIBUTE | NT_ARRAY | NT_COUNT_FUNCTION | NT_TEXT

  datatype Node = Node(ntype: NodeType, str: string, arrayIndex: int)

  /** A freshly constructed node: normal, index 0. */
  function NewNode(str: string): Node
  {
    Node(NT_NORMAL, str, 0)
  }

  const InvalidPath := "invalid path format"
  const InvalidArray := "invalid array format"
  const InvalidText := "invalid text format"
  const InvalidFunction := "invalid function format"
  const BadLexicalCast := "bad lexical cast"

  // ---------------------------------------------------------------------
  // Decimal numbers: lexical_cast<int> and %d
  // ---------------------------------------------------------------------

  predicate IsDigit(c: char)
  {
    '0' <= c <= '9'
  }

  predicate AllDigits(s: string)
  {
    forall k :: 0 <= k < |s| ==> IsDigit(s[k])
  }

  function DigitChar(d: nat): char
    requires d < 10
  {
    ('0' as int + d) as char
  }

  /** The value of a string of decimal digits. */
  function DigitsValue(s: string): nat
    requires AllDigits(s)
  {
    if |s| == 0 then 0
    else DigitsValue(s[..|s| - 1]) * 10 + (s[|s| - 1] as int - '0' as int)
  }

  predicate InInt(v: int)
  {
    -0x8000_0000 <= v < 0x8000_0000
  }

  /** lexical_cast<int>: an optional sign and at least one digit, whose
      value fits an int; anything else throws. */
  function ParseInt(s: string): Option<int>
  {
    if |s| > 0 && (s[0] == '-' || s[0] == '+') then
      var body := s[1..];
      if |body| > 0 && AllDigits(body) then
        var v: int := if s[0] == '-' then -(DigitsValue(body) as int) else DigitsValue(body);
        if InInt(v) then Some(v) else None
      else None
    else if |s| > 0 && AllDigits(s) && InInt(DigitsValue(s)) then Some(DigitsValue(s))
    else None
  }

  function NatToString(n: nat): (s: string)
    ensures |s| >= 1 && AllDigits(s)
  {
    if n < 10 then [DigitChar(n)] else NatToString(n / 10) + [DigitChar(n % 10)]
  }

  /** %d: a minus sign for a negative number, then its decimal digits. */
  function IntToString(n: int): string
  {
    if n < 0 then "-" + NatToString(-n) else NatToString(n)
  }

  // ---------------------------------------------------------------------
  // Parsing
  // ---------------------------------------------------------------------

  /** NextToken: the token after cur, or an invalid-path error at the end. */
  function NextToken(tokens: seq<string>, cur: nat): (r: Result<nat>)
    ensures r.Ok? <==> cur + 1 < |tokens|
    ensures r.Ok? ==> r.value == cur + 1
  {
    if cur + 1 < |tokens| then Ok(cur + 1) else Fail(InvalidPath)
  }

  /** "@" name or "#" name: an attribute or count node, or an invalid
      path when nothing follows the sign. */
  function SignedNode(ts: seq<string>): (r: Result<(Node, nat)>)
    requires |ts| > 0
    ensures r.Ok? ==> 1 <= r.value.1 <= |ts|
  {
    match NextToken(ts, 0)
    case Fail(e) => Fail(e)
    case Ok(i) =>
      var kind := if ts[0] == "@" then NT_ATTRIBUTE else NT_COUNT_FUNCTION;
      Ok((Node(kind, ts[i], 0), i + 1))
  }

  /** name "[" n "]": an array node, with the source's error for each
      missing or wrong token. */
  function ArrayNode(ts: seq<string>): (r: Result<(Node, nat)>)
    requires |ts| > 0
    ensures r.Ok? ==> 1 <= r.value.1 <= |ts|
  {
    if |ts| < 3 then Fail(InvalidPath)
    else match ParseInt(ts[2])
      case None => Fail(BadLexicalCast)
      case Some(index) =>
        if |ts| < 4 then Fail(InvalidPath)
        else if ts[3] != "]" then Fail(InvalidArray)
        else Ok((Node(NT_ARRAY, ts[0], index), 4))
  }

  /** name "(" ...: text() or count(body); any other function throws. */
  function FunctionNode(ts: seq<string>): (r: Result<(Node, nat)>)
    requires |ts| > 0
    ensures r.Ok? ==> 1 <= r.value.1 <= |ts|
  {
    if ts[0] == "text" then
      if |ts| < 3 then Fail(InvalidPath)
      else if ts[2] != ")" then Fail(InvalidText)
      else Ok((Node(NT_TEXT, ts[0], 0), 3))
    else if ts[0] == "count" then
      if |ts| < 4 then Fail(InvalidPath)
      else if ts[3] != ")" then Fail(InvalidFunction)
      else Ok((Node(NT_COUNT_FUNCTION, ts[2], 0), 4))
    else Fail(InvalidPath)
  }

  /** One node from the head of ts and the number of tokens it used:
      "@" name, "#" name, name "[" n "]", "text" "(" ")",
      "count" "(" body ")" or a plain name. */
  function ParseNode(ts: seq<string>): (r: Result<(Node, nat)>)
    requires |ts| > 0
    ensures r.Ok? ==> 1 <= r.value.1 <= |ts|
  {
    if ts[0] == "@" || ts[0] == "#" then SignedNode(ts)
    else if |ts| == 1 then Ok((NewNode(ts[0]), 1))
    else if ts[1] == "[" then ArrayNode(ts)
    else if ts[1] == "(" then FunctionNode(ts)
    else Ok((NewNode(ts[0]), 1))
  }

  /** Parse: the nodes pushed, in order, until the tokens end or a node
      fails to parse, and whether the whole list parsed. */
  function ParseAll(ts: seq<string>): (seq<Node>, bool)
    decreases |ts|
  {
    if |ts| == 0 then ([], true)
    else match ParseNode(ts)
      case Fail(_) => ([], false)
      case Ok((node, used)) =>
        var rest := ParseAll(ts[used..]);
        ([node] + rest.0, rest.1)
  }

  // ---------------------------------------------------------------------
  // Rendering
  // ---------------------------------------------------------------------

  /** One node as ToString writes it, after its "/". */
  function NodeText(n: Node): string
  {
    match n.ntype
    case NT_ARRAY => n.str + "[" + IntToString(n.arrayIndex) + "]"
    case NT_COUNT_FUNCTION => "#" + n.str
    case NT_ATTRIBUTE => "@" + n.str
    case NT_TEXT => "text()"
    case NT_NORMAL => n.str
  }

  /** ToString: "/" and the node's text for each node, in order. */
  function PathString(p: seq<Node>): string
  {
    if |p| == 0 then "" else PathString(p[..|p| - 1]) + "/" + NodeText(p[|p| - 1])
  }

  /** The tokens a node's text splits into at the delimiters []@#(). */
  function NodeTokens(n: Node): seq<string>
  {
    match n.ntype
    case NT_ARRAY => [n.str, "[", IntToString(n.arrayIndex), "]"]
    case NT_COUNT_FUNCTION => ["#", n.str]
    case NT_ATTRIBUTE => ["@", n.str]
    case NT_TEXT => ["text", "(", ")"]
    case NT_NORMAL => [n.str]
  }

  function Tokens(p: seq<Node>): seq<string>
  {
    if |p| == 0 then [] else NodeTokens(p[0]) + Tokens(p[1..])
  }

  function Concat(ts: seq<string>): string
  {
    if |ts| == 0 then "" else ts[0] + Concat(ts[1..])
  }

  predicate IsDelimiter(s: string)
  {
    s == "[" || s == "]" || s == "@" || s == "#" || s == "(" || s == ")"
  }

  /** A node ToString and Parse agree on: its name is not a delimiter, a
      text() node is named "text", and only an array node has an index
      (one that fits an int). */
  predicate WellFormedNode(n: Node)
  {
    !IsDelimiter(n.str) &&
    (n.ntype == NT_TEXT ==> n.str == "text") &&
    (n.ntype != NT_ARRAY ==> n.arrayIndex == 0) &&
    InInt(n.arrayIndex)
  }

  // ---------------------------------------------------------------------
  // The path object
  // ---------------------------------------------------------------------

  class ParamXmlPath {
    var path: seq<Node>

    constructor ()
      ensures path == []
    {
      path := [];
    }

    /** Parse: push the nodes of the tokens; a malformed node throws,
        keeping the nodes pushed before it. */
    method Parse(tokens: seq<string>) returns (r: Result<()>)
      modifies this
      ensures path == old(path) + ParseAll(tokens).0
      ensures r.Ok? <==> ParseAll(tokens).1
    {
      ghost var start := path;
      var nodes := path;
      var ts := tokens;
      assert nodes + ParseAll(ts).0 == start + ParseAll(tokens).0;
      while |ts| > 0
        invariant nodes + ParseAll(ts).0 == start + ParseAll(tokens).0
        invariant ParseAll(ts).1 == ParseAll(tokens).1
        decreases |ts|
      {
        var node := ParseNode(ts);
        if node.Fail? {
          assert ParseAll(ts) == ([], false);
          assert nodes + [] == nodes;
          path := nodes;
          return Fail(node.error);
        }
        var (n, used) := node.value;
        assert ParseAll(ts) == ([n] + ParseAll(ts[used..]).0, ParseAll(ts[used..]).1);
        assert nodes + ([n] + ParseAll(ts[used..]).0) == (nodes + [n]) + ParseAll(ts[used..]).0;
        nodes := nodes + [n];
        ts := ts[used..];
      }
      assert nodes + [] == nodes;
      path := nodes;
      return Ok(());
    }

    /** operator= from a string: clear, then parse. */
    method Assign(tokens: seq<string>) returns (r: Result<()>)
      modifies this
      ensures path == ParseAll(tokens).0
      ensures r.Ok? <==> ParseAll(tokens).1
    {
      path := [];
      r := Parse(tokens);
    }

    /** ToString: "/" and the node's text for each node. */
    method ToString() returns (s: string)
      ensures s == PathString(path)
    {
      s := "";
      var i := 0;
      while i < |path|
        invariant 0 <= i <= |path|
        invariant s == PathString(path[..i])
      {
        assert path[..i + 1][..i] == path[..i];
        s := s + "/" + NodeText(path[i]);
        i := i + 1;
      }
      assert path[..i] == path;
    }

    /** operator+= with another path: push its nodes in order. */
    method Append(rhs: seq<Node>)
      modifies this
      ensures path == old(path) + rhs
    {
      var i := 0;
      while i < |rhs|
        invariant 0 <= i <= |rhs|
        invariant path == old(path) + rhs[..i]
      {
        assert rhs[..i + 1] == rhs[..i] + [rhs[i]];
        path := path + [rhs[i]];
        i := i + 1;
      }
      assert rhs[..i] == rhs;
    }

    /** AddAttribute: push an attribute node with the given name. */
    method AddAttribute(name: string)
      modifies this
      ensures path == old(path) + [Node(NT_ATTRIBUTE, name, 0)]
    {
      path := path + [Node(NT_ATTRIBUTE, name, 0)];
    }

    /** AddArray: parse the tokens, then make the last node an array node
        with the given index. */
    method AddArray(tokens: seq<string>, index: int) returns (r: Result<()>)
      modifies this
      ensures var parsed := old(path) + ParseAll(tokens).0;
        if !ParseAll(tokens).1 then r.Fail? && path == parsed
        else if parsed == [] then r.Fail? && path == []
        else r.Ok? && path == parsed[|parsed| - 1 := parsed[|parsed| - 1].(ntype := NT_ARRAY, arrayIndex := index)]
    {
      r := Parse(tokens);
      if r.Fail? {
        return;
      }
      if |path| == 0 {
        return Fail("back() of an empty path");
      }
      var last := path[|path| - 1];
      path := path[|path| - 1 := last.(ntype := NT_ARRAY, arrayIndex := index)];
    }

    /** SetArray: become a copy of the base path, then AddArray. */
    method SetArray(basePath: seq<Node>, tokens: seq<string>, index: int) returns (r: Result<()>)
      modifies this
      ensures var parsed := basePath + ParseAll(tokens).0;
        if !ParseAll(tokens).1 then r.Fail? && path == parsed
        else if parsed == [] then r.Fail? && path == []
        else r.Ok? && path == parsed[|parsed| - 1 := parsed[|parsed| - 1].(ntype := NT_ARRAY, arrayIndex := index)]
    {
      path := basePath;
      r := AddArray(tokens, index);
    }

    /** Back: the last node, if there is one. */
    function Back(): (r: Option<Node>)
      reads this
      ensures r.Some? <==> |path| > 0
      ensures r.Some? ==> r.value == path[|path| - 1]
    {
      if |path| == 0 then None else Some(path[|path| - 1])
    }

    /** pop_back: drop the last node; an empty path is left as it is. */
    method PopBack()
      modifies this
      ensures |old(path)| == 0 ==> path == old(path)
      ensures |old(path)| > 0 ==> path == old(path)[..|old(path)| - 1]
    {
      if |path| > 0 {
        path := path[..|path| - 1];
      }
    }
  }

  // ---------------------------------------------------------------------
  // Properties
  // ---------------------------------------------------------------------

  /** NatToString's digits read back as the number. */
  lemma {:induction false} DigitsOfNat(n: nat)
    ensures DigitsValue(NatToString(n)) == n
  {
    var s := NatToString(n);
    if n >= 10 {
      DigitsOfNat(n / 10);
      assert s[..|s| - 1] == NatToString(n / 10);
    }
  }

  /** A non-negative int's digits read back as the int. */
  lemma NonNegativeRoundTrip(n: nat)
    requires n < 0x8000_0000
    ensures ParseInt(NatToString(n)) == Some(n)
  {
    var s := NatToString(n);
    assert IsDigit(s[0]);
    DigitsOfNat(n);
  }

  /** A minus sign and a negative int's magnitude read back as the int. */
  lemma NegativeRoundTrip(n: nat)
    requires 0 < n <= 0x8000_0000
    ensures ParseInt("-" + NatToString(n)) == Some(-(n as int))
  {
    var s := "-" + NatToString(n);
    assert s[0] == '-';
    assert s[1..] == NatToString(n);
    DigitsOfNat(n);
  }

  /** lexical_cast<int> reads back what %d writes, for every int. */
  lemma IntRoundTrip(n: int)
    requires InInt(n)
    ensures ParseInt(IntToString(n)) == Some(n)
  {
    if n < 0 {
      NegativeRoundTrip(-n);
    } else {
      NonNegativeRoundTrip(n);
    }
  }

  /** "@name" is an attribute node and "#name" a count node; either with
      nothing after the sign throws. */
  lemma SignedNodes(name: string, rest: seq<string>)
    ensures ParseNode(["@", name] + rest) == Ok((Node(NT_ATTRIBUTE, name, 0), 2))
    ensures ParseNode(["#", name] + rest) == Ok((Node(NT_COUNT_FUNCTION, name, 0), 2))
    ensures ParseNode(["@"]).Fail? && ParseNode(["#"]).Fail?
  {
  }

  /** name "[" n "]" is an array node with index n; a missing or wrong
      closing token, a missing or non-numeric index all throw. */
  lemma ArrayNodes(name: string, num: string, close: string, rest: seq<string>)
    requires name != "@" && name != "#"
    ensures ParseNode([name, "["]).Fail? && ParseNode([name, "[", num]).Fail?
    ensures ParseInt(num).Some? && close == "]" ==>
      ParseNode([name, "[", num, close] + rest) == Ok((Node(NT_ARRAY, name, ParseInt(num).value), 4))
    ensures close != "]" ==> ParseNode([name, "[", num, close] + rest).Fail?
    ensures ParseInt(num).None? ==> ParseNode([name, "[", num, close] + rest).Fail?
  {
  }

  /** "text" "(" ")" is a text node and "count" "(" x ")" a count node
      on x; any other name before "(" throws. */
  lemma FunctionNodes(name: string, body: string, close: string, rest: seq<string>)
    ensures close == ")" ==> ParseNode(["text", "(", close] + rest) == Ok((Node(NT_TEXT, "text", 0), 3))
    ensures close != ")" ==> ParseNode(["text", "(", close] + rest).Fail?
    ensures close == ")" ==>
      ParseNode(["count", "(", body, close] + rest) == Ok((Node(NT_COUNT_FUNCTION, body, 0), 4))
    ensures close != ")" ==> ParseNode(["count", "(", body, close] + rest).Fail?
    ensures name != "text" && name != "count" && name != "@" && name != "#" ==>
      ParseNode([name, "("] + rest).Fail?
  {
  }

  /** A name followed by neither "[" nor "(" is a plain node of one token. */
  lemma PlainNodes(name: string, ts: seq<string>)
    requires name != "@" && name != "#"
    requires |ts| == 0 || (ts[0] != "[" && ts[0] != "(")
    ensures ParseNode([name] + ts) == Ok((NewNode(name), 1))
  {
  }

  /** ToString of a concatenation is the concatenation of ToStrings, so
      operator+= appends the text of the right-hand path. */
  lemma {:induction false} PathStringAppend(p: seq<Node>, q: seq<Node>)
    ensures PathString(p + q) == PathString(p) + PathString(q)
    decreases |q|
  {
    if |q| == 0 {
      assert p + q == p;
    } else {
      var q' := q[..|q| - 1];
      assert (p + q)[..|p + q| - 1] == p + q';
      PathStringAppend(p, q');
    }
  }

  /** The text ToString writes for a node is exactly the tokens Parse
      reads for it, run together. */
  lemma NodeTextIsTokens(n: Node)
    ensures NodeText(n) == Concat(NodeTokens(n))
  {
    var ts := NodeTokens(n);
    match n.ntype
    case NT_ARRAY =>
      assert ts[1..][1..][1..][1..] == [];
      assert Concat(ts[1..][1..][1..]) == "]";
      assert Concat(ts[1..][1..]) == IntToString(n.arrayIndex) + "]";
      assert Concat(ts[1..]) == "[" + IntToString(n.arrayIndex) + "]";
    case NT_COUNT_FUNCTION =>
      assert ts[1..][1..] == [];
      assert Concat(ts[1..]) == n.str;
    case NT_ATTRIBUTE =>
      assert ts[1..][1..] == [];
      assert Concat(ts[1..]) == n.str;
    case NT_TEXT =>
      assert ts[1..][1..][1..] == [];
      assert Concat(ts[1..][1..]) == ")";
      assert Concat(ts[1..]) == "()";
    case NT_NORMAL =>
      assert ts[1..] == [];
  }

  /** Neither "[" nor "(" opens the token list: what follows a node then
      cannot be read as its index or its argument list. */
  predicate OpensNode(ts: seq<string>)
  {
    |ts| == 0 || (ts[0] != "[" && ts[0] != "(")
  }

  /** The tokens of well-formed nodes never open with "[" or "(". */
  lemma TokensOpenNode(p: seq<Node>)
    requires forall k :: 0 <= k < |p| ==> WellFormedNode(p[k])
    ensures OpensNode(Tokens(p))
  {
    if |p| > 0 {
      assert Tokens(p)[0] == NodeTokens(p[0])[0];
      assert !IsDelimiter(p[0].str);
    }
  }

  /** Parsing the tokens of one well-formed node, followed by tokens that
      open a node, gives back that node and consumes its tokens. */
  lemma ParseOneNode(n: Node, rest: seq<string>)
    requires WellFormedNode(n) && OpensNode(rest)
    ensures ParseNode(NodeTokens(n) + rest) == Ok((n, |NodeTokens(n)|))
  {
    var ts := NodeTokens(n) + rest;
    match n.ntype
    case NT_ARRAY =>
      IntRoundTrip(n.arrayIndex);
      assert ts[0] == n.str && ts[1] == "[" && ts[2] == IntToString(n.arrayIndex) && ts[3] == "]";
    case NT_COUNT_FUNCTION =>
      assert ts[0] == "#" && ts[1] == n.str;
    case NT_ATTRIBUTE =>
      assert ts[0] == "@" && ts[1] == n.str;
    case NT_TEXT =>
      assert ts[0] == "text" && ts[1] == "(" && ts[2] == ")";
    case NT_NORMAL =>
      assert ts[0] == n.str;
      assert |ts| > 1 ==> ts[1] == rest[0];
  }

  /** Parse inverts ToString's tokens: the tokens of a path of well-formed
      nodes parse back to exactly that path. */
  lemma {:induction false} ParseRoundTrip(p: seq<Node>)
    requires forall k :: 0 <= k < |p| ==> WellFormedNode(p[k])
    ensures ParseAll(Tokens(p)) == (p, true)
    decreases |p|
  {
    if |p| > 0 {
      var ts := Tokens(p);
      TokensOpenNode(p[1..]);
      ParseOneNode(p[0], Tokens(p[1..]));
      assert ts == NodeTokens(p[0]) + Tokens(p[1..]);
      assert ts[|NodeTokens(p[0])|..] == Tokens(p[1..]);
      ParseRoundTrip(p[1..]);
      assert [p[0]] + p[1..] == p;
    }
  }
}
