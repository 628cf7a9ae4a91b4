// The part of KDL 2.0.0 that a DepDecl artifact is written in: nodes with arguments, properties,
// type annotations and children, quoted strings on one line, and decimal integers.
module Kdl {
  import opened Common

  // ---- Quoted strings (section 3.11 of the KDL 2.0.0 specification) ---------------------

  /** Code points a quoted string may not hold literally: newlines, and the disallowed
      literal code points. */
  predicate Forbidden(c: char) {
    var n := c as int;
    || n <= 0x08 || 0x0A <= n <= 0x1F || n == 0x7F || n == 0x85
    || n == 0x2028 || n == 0x2029
    || 0x200E <= n <= 0x200F || 0x202A <= n <= 0x202E || 0x2066 <= n <= 0x2069 || n == 0xFEFF
  }

  function HexValue(c: char): Option<nat> {
    if '0' <= c <= '9' then Some(c as int - '0' as int)
    else if 'A' <= c <= 'F' then Some(10 + c as int - 'A' as int)
    else if 'a' <= c <= 'f' then Some(10 + c as int - 'a' as int)
    else None
  }

  /** The digits of \u{...} up to its brace: at most `left` more, one of them read if `some`. */
  function ReadHex(s: string, value: nat, left: nat, some: bool): (r: Option<(nat, string)>)
    ensures r.Some? ==> |r.value.1| < |s|
    decreases left
  {
    if s == "" then None
    else if s[0] == '}' then (if some then Some((value, s[1..])) else None)
    else if left == 0 then None
    else
      match HexValue(s[0])
      case None => None
      case Some(d) => ReadHex(s[1..], 16 * value + d, left - 1, true)
  }

  function ScalarValue(n: nat): Option<char> {
    if n < 0xD800 || 0xE000 <= n < 0x11_0000 then Some(n as char) else None
  }

  function PlainEscape(c: char): Option<char> {
    match c
    case 'n' => Some('\n')
    case 'r' => Some('\r')
    case 't' => Some('\t')
    case '\\' => Some('\\')
    case '"' => Some('"')
    case 'b' => Some('\U{8}')
    case 'f' => Some('\U{C}')
    case 's' => Some(' ')
    case _ => None
  }

  /** What follows a backslash. */
  function ReadEscape(s: string): (r: Option<(char, string)>)
    ensures r.Some? ==> |r.value.1| < |s|
  {
    if s == "" then None
    else if s[0] == 'u' then
      if |s| < 2 || s[1] != '{' then None
      else
        match ReadHex(s[2..], 0, 6, false)
        case None => None
        case Some((n, rest)) =>
          match ScalarValue(n)
          case None => None
          case Some(c) => Some((c, rest))
    else
      match PlainEscape(s[0])
      case None => None
      case Some(c) => Some((c, s[1..]))
  }

  /** The rest of a quoted string, and what comes after its closing quote. */
  function ReadString(s: string): (r: Option<(string, string)>)
    ensures r.Some? ==> |r.value.1| < |s|
    decreases |s|
  {
    if s == "" then None
    else if s[0] == '"' then Some(("", s[1..]))
    else if s[0] == '\\' then
      match ReadEscape(s[1..])
      case None => None
      case Some((c, rest)) =>
        match ReadString(rest)
        case None => None
        case Some((t, rest')) => Some(([c] + t, rest'))
    else if Forbidden(s[0]) then None
    else
      match ReadString(s[1..])
      case None => None
      case Some((t, rest)) => Some(([s[0]] + t, rest))
  }

  // ---- Tokens -------------------------------------------------------------------------

  datatype Token = Word(w: string) | Str(s: string) | Num(n: nat)
                 | LBrace | RBrace | LParen | RParen | Equals | Newline

  predicate IsDigit(c: char) {
    '0' <= c <= '9'
  }

  predicate IsWordChar(c: char) {
    'a' <= c <= 'z' || 'A' <= c <= 'Z' || c == '_' || c == '-' || IsDigit(c)
  }

  /** The longest prefix of word characters. */
  function WordLength(s: string): (n: nat)
    ensures n <= |s|
  {
    if s == "" || !IsWordChar(s[0]) then 0 else 1 + WordLength(s[1..])
  }

  /** The value of a run of digits, None if it is not one. */
  function DecimalValue(s: string): Option<nat> {
    if s == "" then Some(0)
    else
      match DecimalValue(s[..|s| - 1])
      case None => None
      case Some(n) =>
        var c := s[|s| - 1];
        if IsDigit(c) then Some(10 * n + (c as int - '0' as int)) else None
  }

  function Punctuation(c: char): Option<Token> {
    match c
    case '{' => Some(LBrace)
    case '}' => Some(RBrace)
    case '(' => Some(LParen)
    case ')' => Some(RParen)
    case '=' => Some(Equals)
    case '\n' => Some(Newline)
    case _ => None
  }

  function Cons(t: Token, o: Option<seq<Token>>): Option<seq<Token>> {
    if o.Some? then Some([t] + o.value) else None
  }

  /** The tokens of a text. A word that starts with a digit has to be a number. */
  function Lex(s: string): Option<seq<Token>>
    decreases |s|
  {
    if s == "" then Some([])
    else if s[0] == ' ' || s[0] == '\t' then Lex(s[1..])
    else if s[0] == '"' then
      match ReadString(s[1..])
      case None => None
      case Some((v, rest)) => Cons(Str(v), Lex(rest))
    else if Punctuation(s[0]).Some? then Cons(Punctuation(s[0]).value, Lex(s[1..]))
    else
      var n := WordLength(s);
      if n == 0 then None
      else if !IsDigit(s[0]) then Cons(Word(s[..n]), Lex(s[n..]))
      else
        match DecimalValue(s[..n])
        case None => None
        case Some(value) => Cons(Num(value), Lex(s[n..]))
  }

  // ---- Nodes ---------------------------------------------------------------------------

  datatype Value = Value(tag: Option<string>, scalar: Scalar)
  datatype Scalar = Text(s: string) | Int(n: nat)
  datatype Entry = Arg(value: Value) | Prop(key: string, value: Value)
  datatype Node = Node(name: string, entries: seq<Entry>, children: seq<Node>)

  /** A value, with or without an annotation. */
  function ParseValue(ts: seq<Token>): (r: Option<(Value, seq<Token>)>)
    ensures r.Some? ==> |r.value.1| < |ts|
  {
    if |ts| >= 4 && ts[0].LParen? && ts[1].Word? && ts[2].RParen? then
      match ts[3]
      case Str(s) => Some((Value(Some(ts[1].w), Text(s)), ts[4..]))
      case Num(n) => Some((Value(Some(ts[1].w), Int(n)), ts[4..]))
      case _ => None
    else if ts == [] then None
    else
      match ts[0]
      case Str(s) => Some((Value(None, Text(s)), ts[1..]))
      case Num(n) => Some((Value(None, Int(n)), ts[1..]))
      case Word(w) => Some((Value(None, Text(w)), ts[1..]))
      case _ => None
  }

  /** The tokens an entry cannot start with, for they end or open a block, or end the line. */
  predicate EndsEntries(t: Token) {
    t.LBrace? || t.RBrace? || t.Newline?
  }

  /** Arguments and properties, as long as there are any. */
  function ParseEntries(ts: seq<Token>): (r: Option<(seq<Entry>, seq<Token>)>)
    ensures r.Some? ==> |r.value.1| <= |ts|
    decreases |ts|
  {
    if ts == [] || EndsEntries(ts[0]) then Some(([], ts))
    else
      var isProp := |ts| >= 2 && ts[0].Word? && ts[1] == Equals;
      match ParseValue(if isProp then ts[2..] else ts)
      case None => None
      case Some((v, rest)) =>
        match ParseEntries(rest)
        case None => None
        case Some((es, rest')) => Some(([if isProp then Prop(ts[0].w, v) else Arg(v)] + es, rest'))
  }

  /** Nodes, up to a closing brace or the end. */
  function ParseNodes(ts: seq<Token>): (r: Option<(seq<Node>, seq<Token>)>)
    ensures r.Some? ==> |r.value.1| <= |ts|
    decreases |ts|, 1
  {
    if ts == [] || ts[0] == RBrace then Some(([], ts))
    else if ts[0] == Newline then ParseNodes(ts[1..])
    else if !ts[0].Word? then None
    else
      match ParseNode(ts)
      case None => None
      case Some((node, rest)) =>
        match ParseNodes(rest)
        case None => None
        case Some((nodes, rest')) => Some(([node] + nodes, rest'))
  }

  /** One node: its name, its entries, its children, and something to end it. */
  function ParseNode(ts: seq<Token>): (r: Option<(Node, seq<Token>)>)
    requires ts != [] && ts[0].Word?
    ensures r.Some? ==> |r.value.1| < |ts|
    decreases |ts|, 0
  {
    match ParseEntries(ts[1..])
    case None => None
    case Some((entries, rest)) =>
      match ParseChildren(rest)
      case None => None
      case Some((children, rest')) =>
        if rest' != [] && !rest'[0].Newline? && !rest'[0].RBrace? then None
        else Some((Node(ts[0].w, entries, children), rest'))
  }

  /** A block of children, if one is there. */
  function ParseChildren(ts: seq<Token>): (r: Option<(seq<Node>, seq<Token>)>)
    ensures r.Some? ==> |r.value.1| <= |ts|
    decreases |ts|, 2
  {
    if ts == [] || ts[0] != LBrace then Some(([], ts))
    else
      match ParseNodes(ts[1..])
      case None => None
      case Some((nodes, rest)) =>
        if rest == [] then None else Some((nodes, rest[1..]))
  }

  // ---- The depth guard --------------------------------------------------------------------

  const MAX_NESTING_DEPTH := 32

  function Max(a: nat, b: nat): nat {
    if a > b then a else b
  }

  /** The greatest brace depth a scan from depth `d` reaches; strings are scanned like the rest. */
  function BraceMax(s: string, d: nat): nat {
    if s == "" then 0
    else if s[0] == '{' then Max(d + 1, BraceMax(s[1..], d + 1))
    else if s[0] == '}' then BraceMax(s[1..], if d > 0 then d - 1 else 0)
    else BraceMax(s[1..], d)
  }

  /** The same of comment brackets. */
  function CommentMax(s: string, d: nat): nat
    decreases |s|
  {
    if |s| < 2 then 0
    else if s[0] == '/' && s[1] == '*' then Max(d + 1, CommentMax(s[2..], d + 1))
    else if s[0] == '*' && s[1] == '/' then CommentMax(s[2..], if d > 0 then d - 1 else 0)
    else CommentMax(s[1..], d)
  }

  predicate NestingOk(s: string) {
    BraceMax(s, 0) <= MAX_NESTING_DEPTH && CommentMax(s, 0) <= MAX_NESTING_DEPTH
  }

  /** One pass with both counters, and the skips the comment brackets make, decides the guard. */
  method CheckNestingDepth(text: string) returns (ok: bool)
    ensures ok == NestingOk(text)
  {
    var braceDepth: nat, braceMax: nat, commentDepth: nat, commentMax: nat := 0, 0, 0, 0;
    var i := 0;
    while i < |text|
      invariant 0 <= i <= |text|
      invariant Max(braceMax, BraceMax(text[i..], braceDepth)) == BraceMax(text, 0)
      invariant Max(commentMax, CommentMax(text[i..], commentDepth)) == CommentMax(text, 0)
    {
      var ch := text[i];
      assert text[i..][1..] == text[i + 1..];
      if i + 1 < |text| {
        assert text[i..][2..] == text[i + 2..];
        assert text[i + 1..][1..] == text[i + 2..];
      }
      if ch == '{' {
        braceDepth := braceDepth + 1;
        if braceDepth > braceMax {
          braceMax := braceDepth;
        }
      } else if ch == '}' {
        if braceDepth > 0 {
          braceDepth := braceDepth - 1;
        }
      } else if ch == '/' && i + 1 < |text| && text[i + 1] == '*' {
        commentDepth := commentDepth + 1;
        if commentDepth > commentMax {
          commentMax := commentDepth;
        }
        i := i + 1;
      } else if ch == '*' && i + 1 < |text| && text[i + 1] == '/' {
        if commentDepth > 0 {
          commentDepth := commentDepth - 1;
        }
        i := i + 1;
      }
      i := i + 1;
    }
    ok := braceMax <= MAX_NESTING_DEPTH && commentMax <= MAX_NESTING_DEPTH;
  }

  /** parse_kdl: the guard on the text, then the nodes of the whole of it. */
  function ParseDocument(text: string): Option<seq<Node>> {
    if !NestingOk(text) then None
    else
      match Lex(text)
      case None => None
      case Some(ts) =>
        match ParseNodes(ts)
        case None => None
        case Some((nodes, rest)) => if rest == [] then Some(nodes) else None
  }
}
