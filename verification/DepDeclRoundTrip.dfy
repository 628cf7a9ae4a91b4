// What the parser makes of what the printer wrote, for every edge set.
module DepDeclRoundTrip {
  import opened Common
  import opened Kdl
  import opened Edges
  import opened DepDecl

  // ---- Strings ------------------------------------------------------------------------

  /** The code points the printer writes as they are and KDL does not take as they are: newlines
      and direction marks beyond ASCII, and the byte order mark. */
  predicate Unwritable(c: char) {
    var n := c as int;
    || n == 0x85 || n == 0x2028 || n == 0x2029
    || 0x200E <= n <= 0x200F || 0x202A <= n <= 0x202E || 0x2066 <= n <= 0x2069 || n == 0xFEFF
  }

  predicate Writable(s: string) {
    forall c :: c in s ==> !Unwritable(c)
  }

  function Extend(c: char, o: Option<(string, string)>): Option<(string, string)> {
    match o
    case None => None
    case Some((s, rest)) => Some(([c] + s, rest))
  }

  lemma ReadCodeEscape(n: nat, t: string)
    requires n < 0x20 || n == 0x7F
    ensures ReadEscape(CodeEscape(n)[1..] + t) == Some((n as char, t))
  {
    ReadDigits(n, t);
    CodeEscapeText(n, t);
  }

  lemma CodeEscapeText(n: nat, t: string)
    requires n < 0x100
    ensures var s := CodeEscape(n)[1..] + t;
            |s| > 2 && s[0] == 'u' && s[1] == '{' && s[2..] == CodeDigits(n) + ("}" + t)
  {
    assert CodeEscape(n)[1..] == "u{" + (CodeDigits(n) + "}");
    Nest3("u{", CodeDigits(n), "}", t);
  }

  lemma ReadDigits(n: nat, t: string)
    requires n < 256
    ensures ReadHex(CodeDigits(n) + ("}" + t), 0, 6, false) == Some((n, t))
  {
    if n < 16 {
      ReadLastDigit(n, 0, 5, false, t);
    } else {
      ReadTwoDigits(n / 16, n % 16, t);
      assert [HexUpper(n / 16), HexUpper(n % 16)] == [HexUpper(n / 16)] + [HexUpper(n % 16)];
    }
  }

  lemma ReadTwoDigits(m: nat, n: nat, t: string)
    requires m < 16 && n < 16
    ensures ReadHex([HexUpper(m)] + [HexUpper(n)] + ("}" + t), 0, 6, false) == Some((16 * m + n, t))
  {
    var s := [HexUpper(m)] + [HexUpper(n)] + ("}" + t);
    assert s[1..] == [HexUpper(n)] + ("}" + t);
    ReadLastDigit(n, m, 4, true, t);
  }

  lemma ReadLastDigit(d: nat, value: nat, left: nat, some: bool, t: string)
    requires d < 16
    ensures ReadHex([HexUpper(d)] + ("}" + t), value, left + 1, some) == Some((16 * value + d, t))
  {
    var s := [HexUpper(d)] + ("}" + t);
    assert s[1..] == "}" + t;
    assert ("}" + t)[1..] == t;
    assert ReadHex(s[1..], 16 * value + d, left, true) == Some((16 * value + d, t));
  }

  lemma ReadEscaped(c: char, t: string)
    ensures ReadString(EscapeChar(c) + t) == if Unwritable(c) then None else Extend(c, ReadString(t))
  {
    var e := EscapeChar(c);
    var s := e + t;
    if e == [c] {
      assert s[1..] == t;
    } else if c in {'\\', '"', '\n', '\r', '\t'} {
      assert s[1..] == [e[1]] + t;
      assert s[1..][1..] == t;
    } else {
      assert s[1..] == e[1..] + t;
      ReadCodeEscape(c as int, t);
    }
  }

  lemma WritableCons(v: string)
    requires v != ""
    ensures v == [v[0]] + v[1..]
    ensures Writable(v) <==> !Unwritable(v[0]) && Writable(v[1..])
  {
    assert v == [v[0]] + v[1..];
    assert forall c :: c in v <==> c == v[0] || c in v[1..];
  }

  /** A printed string is read back whole, or not at all. */
  lemma {:induction false} ReadQuoted(v: string, t: string)
    ensures ReadString(Escape(v) + ("\"" + t)) == if Writable(v) then Some((v, t)) else None
  {
    if v == "" {
      assert Escape(v) + ("\"" + t) == "\"" + t;
      assert ("\"" + t)[1..] == t;
    } else {
      var rest := Escape(v[1..]) + ("\"" + t);
      Reassociate(EscapeChar(v[0]), Escape(v[1..]), "\"" + t);
      ReadEscaped(v[0], rest);
      ReadQuoted(v[1..], t);
      WritableCons(v);
    }
  }

  // ---- Tokens ------------------------------------------------------------------------

  lemma LexString(v: string, t: string)
    ensures Lex(KdlStr(v) + t) == if Writable(v) then Cons(Str(v), Lex(t)) else None
  {
    var s := KdlStr(v) + t;
    assert s[1..] == Escape(v) + ("\"" + t);
    ReadQuoted(v, t);
  }

  lemma LexSpace(t: string)
    ensures Lex(" " + t) == Lex(t)
  {
    assert (" " + t)[1..] == t;
  }

  lemma LexIndent(t: string)
    ensures Lex("    " + t) == Lex(t)
  {
    assert "    " + t == " " + (" " + (" " + (" " + t)));
    LexSpace(" " + (" " + (" " + t)));
    LexSpace(" " + (" " + t));
    LexSpace(" " + t);
    LexSpace(t);
  }

  lemma LexPunctuation(c: char, t: string)
    requires Punctuation(c).Some?
    ensures Lex([c] + t) == Cons(Punctuation(c).value, Lex(t))
  {
    assert ([c] + t)[1..] == t;
  }

  predicate WordEnds(t: string) {
    t == "" || !IsWordChar(t[0])
  }

  lemma {:induction false} WordLengthOf(w: string, t: string)
    requires WordEnds(t) && forall c :: c in w ==> IsWordChar(c)
    ensures WordLength(w + t) == |w|
  {
    if w == "" {
      assert w + t == t;
    } else {
      assert (w + t)[1..] == w[1..] + t;
      WordLengthOf(w[1..], t);
    }
  }

  lemma LexWord(w: string, t: string)
    requires w != "" && WordEnds(t) && !IsDigit(w[0]) && forall c :: c in w ==> IsWordChar(c)
    ensures Lex(w + t) == Cons(Word(w), Lex(t))
  {
    WordLengthOf(w, t);
    assert (w + t)[0] == w[0] && IsWordChar(w[0]);
    AppendParts(w, t);
  }

  lemma AppendParts(w: string, t: string)
    ensures (w + t)[..|w|] == w && (w + t)[|w|..] == t
  {
  }

  lemma {:induction false} DecimalReads(n: nat)
    ensures Decimal(n) != "" && DecimalValue(Decimal(n)) == Some(n)
    ensures forall c :: c in Decimal(n) ==> IsDigit(c)
  {
    var s := Decimal(n);
    if n >= 10 {
      DecimalReads(n / 10);
      assert s[..|s| - 1] == Decimal(n / 10);
    } else {
      assert s[..|s| - 1] == "";
    }
  }

  lemma LexNumber(w: string, n: nat, t: string)
    requires w != "" && WordEnds(t) && DecimalValue(w) == Some(n) && forall c :: c in w ==> IsDigit(c)
    ensures Lex(w + t) == Cons(Num(n), Lex(t))
  {
    var s := w + t;
    assert s[0] == w[0] && w[0] in w;
    WordLengthOf(w, t);
    assert s[..|w|] == w && s[|w|..] == t;
  }

  lemma LexDecimal(n: nat, t: string)
    requires WordEnds(t)
    ensures Lex(Decimal(n) + t) == Cons(Num(n), Lex(t))
  {
    DecimalReads(n);
    LexNumber(Decimal(n), n, t);
  }

  function Prefixed(ts: seq<Token>, o: Option<seq<Token>>): Option<seq<Token>> {
    if o.Some? then Some(ts + o.value) else None
  }

  lemma ConsPrefixed(t: Token, ts: seq<Token>, o: Option<seq<Token>>)
    ensures Cons(t, Prefixed(ts, o)) == Prefixed([t] + ts, o)
  {
    if o.Some? {
      assert [t] + (ts + o.value) == [t] + ts + o.value;
    }
  }

  // ---- Lines -------------------------------------------------------------------------

  predicate WritableEntry(e: PlainRequire) {
    match e
    case Named(name, constraint) => Writable(name) && Writable(constraint)
    case Url(url, ref) => Writable(url) && Writable(ref)
  }

  function Annotated(w: string, v: string): seq<Token> {
    [LParen, Word(w), RParen, Str(v)]
  }

  function Property(w: string, v: string): seq<Token> {
    [Word(w), Equals, Str(v)]
  }

  function ValueTokens(e: PlainRequire): seq<Token> {
    match e
    case Named(name, constraint) => [Str(name)] + [Str(constraint)]
    case Url(url, ref) => Annotated("url", url) + Property("ref", ref)
  }

  function EntryTokens(e: PlainRequire): seq<Token> {
    [Word("require")] + (ValueTokens(e) + [Newline])
  }

  /** The start of a line: its indentation, a word and a space. */
  lemma LexKeyword(w: string, t: string)
    requires w != "" && !IsDigit(w[0]) && forall c :: c in w ==> IsWordChar(c)
    ensures Lex("    " + (w + (" " + t))) == Cons(Word(w), Lex(t))
  {
    LexIndent(w + (" " + t));
    LexWord(w, " " + t);
    LexSpace(t);
  }

  /** The end of a line: a string and the newline. */
  lemma LexLastString(v: string, t: string)
    ensures Lex(KdlStr(v) + ("\n" + t)) == if Writable(v) then Prefixed([Str(v)] + [Newline], Lex(t)) else None
  {
    LexString(v, "\n" + t);
    LexPunctuation('\n', t);
    ConsIsPrefixed(Newline, Lex(t));
    ConsPrefixed(Str(v), [Newline], Lex(t));
  }

  lemma ConsIsPrefixed(t: Token, o: Option<seq<Token>>)
    ensures Cons(t, o) == Prefixed([t], o)
  {
  }

  // Concatenation, regrouped to the right.
  lemma Nest3(a: string, b: string, c: string, t: string)
    ensures (a + (b + c)) + t == a + (b + (c + t))
  {
  }

  lemma Nest2(a: string, b: string, t: string)
    ensures (a + b) + t == a + (b + t)
  {
  }

  lemma Nest4(a: string, b: string, c: string, t: string)
    ensures a + b + c + t == a + (b + (c + t))
  {
  }

  lemma Nest5(a: string, b: string, c: string, d: string, e: string, t: string)
    ensures a + b + c + d + e + t == a + (b + (c + (d + (e + t))))
  {
    assert a + b + c + d + e + t == (a + b + c) + (d + (e + t));
  }

  lemma NamedText(name: string, constraint: string, t: string)
    ensures RequireLine(Named(name, constraint)) + "\n" + t ==
            "    " + ("require" + (" " + (KdlStr(name) + (" " + (KdlStr(constraint) + ("\n" + t))))))
  {
    var n, c := KdlStr(name), KdlStr(constraint);
    Nest5("    require ", n, " ", c, "\n", t);
    assert "    require " == "    " + ("require" + " ");
    Nest3("    ", "require", " ", n + (" " + (c + ("\n" + t))));
  }

  lemma LexNamed(name: string, constraint: string, t: string)
    ensures Lex(RequireLine(Named(name, constraint)) + "\n" + t) ==
            if WritableEntry(Named(name, constraint)) then Prefixed(EntryTokens(Named(name, constraint)), Lex(t)) else None
  {
    var last := KdlStr(constraint) + ("\n" + t);
    NamedText(name, constraint, t);
    LexKeyword("require", KdlStr(name) + (" " + last));
    LexString(name, " " + last);
    LexSpace(last);
    LexLastString(constraint, t);
    ConsPrefixed(Str(name), [Str(constraint)] + [Newline], Lex(t));
    Reassociate([Str(name)], [Str(constraint)], [Newline]);
    ConsPrefixed(Word("require"), ValueTokens(Named(name, constraint)) + [Newline], Lex(t));
  }

  lemma UrlLiterals()
    ensures " ref=" == " " + ("ref" + "=")
    ensures "    require (url)" == ("    " + ("require" + " ")) + ("(" + ("url" + ")"))
  {
  }

  lemma UrlText(url: string, ref: string, t: string)
    ensures RequireLine(Url(url, ref)) + "\n" + t ==
            "    " + ("require" + (" " + ("(" + ("url" + (")" + (KdlStr(url) + (" " + ("ref" + ("=" + (KdlStr(ref) + ("\n" + t)))))))))))
  {
    var u, f := KdlStr(url), KdlStr(ref);
    var prop := f + ("\n" + t);
    Nest5("    require (url)", u, " ref=", f, "\n", t);
    UrlLiterals();
    Nest3(" ", "ref", "=", prop);
    var arg := u + (" " + ("ref" + ("=" + prop)));
    Nest3("(", "url", ")", arg);
    Nest3("    ", "require", " ", "(" + ("url" + (")" + arg)));
    Nest2("    " + ("require" + " "), "(" + ("url" + ")"), arg);
  }

  lemma LexProperty(w: string, v: string, t: string)
    requires w != "" && !IsDigit(w[0]) && forall c :: c in w ==> IsWordChar(c)
    ensures Lex(" " + (w + ("=" + (KdlStr(v) + ("\n" + t))))) ==
            if Writable(v) then Prefixed(Property(w, v) + [Newline], Lex(t)) else None
  {
    var last := KdlStr(v) + ("\n" + t);
    LexSpace(w + ("=" + last));
    LexWord(w, "=" + last);
    LexPunctuation('=', last);
    LexLastString(v, t);
    ConsPrefixed(Equals, [Str(v)] + [Newline], Lex(t));
    ConsPrefixed(Word(w), [Equals] + ([Str(v)] + [Newline]), Lex(t));
    assert [Word(w)] + ([Equals] + ([Str(v)] + [Newline])) == Property(w, v) + [Newline];
  }

  lemma LexAnnotated(w: string, v: string, t: string)
    requires w != "" && !IsDigit(w[0]) && forall c :: c in w ==> IsWordChar(c)
    ensures Lex("(" + (w + (")" + (KdlStr(v) + t)))) == if Writable(v) then Prefixed(Annotated(w, v), Lex(t)) else None
  {
    var arg := KdlStr(v) + t;
    LexPunctuation('(', w + (")" + arg));
    LexWord(w, ")" + arg);
    LexPunctuation(')', arg);
    LexString(v, t);
    ConsIsPrefixed(Str(v), Lex(t));
    ConsPrefixed(RParen, [Str(v)], Lex(t));
    ConsPrefixed(Word(w), [RParen] + [Str(v)], Lex(t));
    ConsPrefixed(LParen, [Word(w)] + ([RParen] + [Str(v)]), Lex(t));
    assert [LParen] + ([Word(w)] + ([RParen] + [Str(v)])) == Annotated(w, v);
  }

  lemma LexUrl(url: string, ref: string, t: string)
    ensures Lex(RequireLine(Url(url, ref)) + "\n" + t) ==
            if WritableEntry(Url(url, ref)) then Prefixed(EntryTokens(Url(url, ref)), Lex(t)) else None
  {
    var prop := " " + ("ref" + ("=" + (KdlStr(ref) + ("\n" + t))));
    UrlText(url, ref, t);
    LexKeyword("require", "(" + ("url" + (")" + (KdlStr(url) + prop))));
    LexAnnotated("url", url, prop);
    LexProperty("ref", ref, t);
    PrefixPrefixed(Annotated("url", url), Property("ref", ref) + [Newline], Lex(t));
    Reassociate(Annotated("url", url), Property("ref", ref), [Newline]);
    ConsPrefixed(Word("require"), ValueTokens(Url(url, ref)) + [Newline], Lex(t));
  }

  lemma PrefixPrefixed(a: seq<Token>, b: seq<Token>, o: Option<seq<Token>>)
    ensures Prefixed(a, Prefixed(b, o)) == Prefixed(a + b, o)
  {
    if o.Some? {
      Reassociate(a, b, o.value);
    }
  }

  function Unlines(lines: seq<string>): string {
    if lines == [] then "" else lines[0] + "\n" + Unlines(lines[1..])
  }

  lemma {:induction false} JoinIsUnlines(lines: seq<string>)
    requires lines != []
    ensures Join("\n", lines) + "\n" == Unlines(lines)
  {
    if |lines| > 1 {
      JoinIsUnlines(lines[1..]);
      assert lines[0] + "\n" + Join("\n", lines[1..]) + "\n" == lines[0] + "\n" + (Join("\n", lines[1..]) + "\n");
    } else {
      assert Unlines(lines[1..]) == "";
    }
  }

  function EntriesTokens(es: seq<PlainRequire>): seq<Token> {
    if es == [] then [] else EntryTokens(es[0]) + EntriesTokens(es[1..])
  }

  predicate WritableEntries(es: seq<PlainRequire>) {
    forall e :: e in es ==> WritableEntry(e)
  }

  const CLOSING: seq<Token> := [RBrace, Newline]

  lemma {:induction false} LexEntries(es: seq<PlainRequire>)
    ensures Lex(Unlines(RequireLines(es) + ["}"])) ==
            if WritableEntries(es) then Some(EntriesTokens(es) + CLOSING) else None
  {
    var lines := RequireLines(es) + ["}"];
    if es == [] {
      assert lines == ["}"] && lines[1..] == [];
      assert Unlines(lines) == "}" + ("\n" + "");
      LexPunctuation('}', "\n" + "");
      LexPunctuation('\n', "");
      assert EntriesTokens(es) + CLOSING == [RBrace] + ([Newline] + []);
    } else {
      var rest := Unlines(RequireLines(es[1..]) + ["}"]);
      assert lines[1..] == RequireLines(es[1..]) + ["}"];
      assert Unlines(lines) == RequireLine(es[0]) + "\n" + rest;
      LexEntries(es[1..]);
      match es[0] {
        case Named(name, constraint) => LexNamed(name, constraint, rest);
        case Url(url, ref) => LexUrl(url, ref, rest);
      }
      assert WritableEntries(es) <==> WritableEntry(es[0]) && WritableEntries(es[1..]);
      assert EntryTokens(es[0]) + (EntriesTokens(es[1..]) + CLOSING) == EntriesTokens(es) + CLOSING;
    }
  }

  predicate WritableEdges(es: PlainEdges) {
    Writable(es.srcDir) && WritableEntries(es.entries)
  }

  /** A line of one word and one value. */
  function Field(w: string, value: Token): seq<Token> {
    [Word(w)] + ([value] + [Newline])
  }

  function FieldsTokens(es: PlainEdges, version: nat): seq<Token> {
    Field("dep_decl_schema_version", Num(version))
    + (Field("src_dir", Str(es.srcDir)) + (EntriesTokens(es.entries) + CLOSING))
  }

  function Opened(ts: seq<Token>): seq<Token> {
    [Word("dep_decl")] + ([LBrace] + ([Newline] + ts))
  }

  lemma LexSrcDir(srcDir: string, t: string)
    ensures Lex("    src_dir " + KdlStr(srcDir) + "\n" + t) ==
            if Writable(srcDir) then Prefixed(Field("src_dir", Str(srcDir)), Lex(t)) else None
  {
    SrcDirText(KdlStr(srcDir), t);
    LexKeyword("src_dir", KdlStr(srcDir) + ("\n" + t));
    LexLastString(srcDir, t);
    ConsPrefixed(Word("src_dir"), [Str(srcDir)] + [Newline], Lex(t));
  }

  lemma SrcDirText(v: string, t: string)
    ensures "    src_dir " + v + "\n" + t == "    " + ("src_dir" + (" " + (v + ("\n" + t))))
  {
    assert "    src_dir " == "    " + ("src_dir" + " ");
  }

  lemma VersionText(v: string, t: string)
    ensures "    dep_decl_schema_version " + v + "\n" + t ==
            "    " + ("dep_decl_schema_version" + (" " + (v + ("\n" + t))))
  {
    assert "    dep_decl_schema_version " == "    " + ("dep_decl_schema_version" + " ");
  }

  lemma LexLastDecimal(n: nat, t: string)
    ensures Lex(Decimal(n) + ("\n" + t)) == Prefixed([Num(n)] + [Newline], Lex(t))
  {
    LexDecimal(n, "\n" + t);
    LexPunctuation('\n', t);
    ConsIsPrefixed(Newline, Lex(t));
    ConsPrefixed(Num(n), [Newline], Lex(t));
  }

  lemma LexVersion(version: nat, t: string)
    ensures Lex("    dep_decl_schema_version " + Decimal(version) + "\n" + t) ==
            Prefixed(Field("dep_decl_schema_version", Num(version)), Lex(t))
  {
    VersionText(Decimal(version), t);
    LexKeyword("dep_decl_schema_version", Decimal(version) + ("\n" + t));
    LexLastDecimal(version, t);
    ConsPrefixed(Word("dep_decl_schema_version"), [Num(version)] + [Newline], Lex(t));
  }

  lemma OpeningText(t: string)
    ensures "dep_decl {" + "\n" + t == "dep_decl" + (" " + ("{" + ("\n" + t)))
  {
    assert "dep_decl {" == "dep_decl" + (" " + "{");
  }

  lemma LexOpening(t: string)
    ensures Lex("dep_decl {" + "\n" + t) == if Lex(t).Some? then Some(Opened(Lex(t).value)) else None
  {
    OpeningText(t);
    LexWord("dep_decl", " " + ("{" + ("\n" + t)));
    LexSpace("{" + ("\n" + t));
    LexPunctuation('{', "\n" + t);
    LexPunctuation('\n', t);
  }

  lemma UnlinesCons(line: string, rest: seq<string>)
    ensures Unlines([line] + rest) == line + "\n" + Unlines(rest)
  {
    assert ([line] + rest)[1..] == rest;
  }

  lemma SerializeText(es: PlainEdges, version: nat)
    ensures Serialize(es, version) ==
            "dep_decl {" + "\n" + ("    dep_decl_schema_version " + Decimal(version) + "\n"
            + ("    src_dir " + KdlStr(es.srcDir) + "\n" + Unlines(RequireLines(es.entries) + ["}"])))
  {
    var tail := RequireLines(es.entries) + ["}"];
    var a, b, c := "dep_decl {", "    dep_decl_schema_version " + Decimal(version), "    src_dir " + KdlStr(es.srcDir);
    assert Lines(es, version) == [a] + ([b] + ([c] + tail));
    JoinIsUnlines(Lines(es, version));
    UnlinesCons(a, [b] + ([c] + tail));
    UnlinesCons(b, [c] + tail);
    UnlinesCons(c, tail);
  }

  lemma LexSerialized(es: PlainEdges, version: nat)
    ensures Lex(Serialize(es, version)) ==
            if WritableEdges(es) then Some(Opened(FieldsTokens(es, version))) else None
  {
    var tail := Unlines(RequireLines(es.entries) + ["}"]);
    var t1 := "    src_dir " + KdlStr(es.srcDir) + "\n" + tail;
    var t2 := "    dep_decl_schema_version " + Decimal(version) + "\n" + t1;
    SerializeText(es, version);
    LexOpening(t2);
    LexVersion(version, t1);
    LexSrcDir(es.srcDir, tail);
    LexEntries(es.entries);
  }

  // ---- Nodes ---------------------------------------------------------------------------

  function PlainValue(s: string): Value {
    Value(None, Text(s))
  }

  function EntryNode(e: PlainRequire): Node {
    match e
    case Named(name, constraint) => Node("require", [Arg(PlainValue(name)), Arg(PlainValue(constraint))], [])
    case Url(url, ref) => Node("require", [Arg(Value(Some("url"), Text(url))), Prop("ref", PlainValue(ref))], [])
  }

  function EntryNodes(es: seq<PlainRequire>): seq<Node> {
    if es == [] then [] else [EntryNode(es[0])] + EntryNodes(es[1..])
  }

  lemma StopsAtNewline(t: seq<Token>)
    ensures ParseEntries([Newline] + t) == Some(([], [Newline] + t))
  {
  }

  lemma StringArg(s: string, t: seq<Token>)
    requires t != []
    requires ParseEntries(t).Some?
    ensures var (es, rest) := ParseEntries(t).value;
            ParseEntries([Str(s)] + t) == Some(([Arg(PlainValue(s))] + es, rest))
  {
    assert ([Str(s)] + t)[1..] == t;
  }

  lemma PropertyEntry(w: string, v: string, t: seq<Token>)
    requires t != [] && ParseEntries(t).Some?
    ensures var (es, rest) := ParseEntries(t).value;
            ParseEntries(Property(w, v) + t) == Some(([Prop(w, PlainValue(v))] + es, rest))
  {
    var ts := Property(w, v) + t;
    assert ts[2..] == [Str(v)] + t;
    assert ([Str(v)] + t)[1..] == t;
    assert ParseValue(ts[2..]) == Some((PlainValue(v), t));
  }

  lemma AnnotatedEntry(w: string, v: string, t: seq<Token>)
    requires t != [] && ParseEntries(t).Some?
    ensures var (es, rest) := ParseEntries(t).value;
            ParseEntries(Annotated(w, v) + t) == Some(([Arg(Value(Some(w), Text(v)))] + es, rest))
  {
    var ts := Annotated(w, v) + t;
    assert ts[4..] == t;
    assert ParseValue(ts) == Some((Value(Some(w), Text(v)), t));
  }

  lemma ParseValues(e: PlainRequire, t: seq<Token>)
    ensures ParseEntries(ValueTokens(e) + ([Newline] + t)) == Some((EntryNode(e).entries, [Newline] + t))
  {
    StopsAtNewline(t);
    match e {
      case Named(name, constraint) =>
        StringArg(constraint, [Newline] + t);
        StringArg(name, [Str(constraint)] + ([Newline] + t));
        Reassociate([Str(name)], [Str(constraint)], [Newline] + t);
        assert EntryNode(e).entries == [Arg(PlainValue(name))] + ([Arg(PlainValue(constraint))] + []);
      case Url(url, ref) =>
        PropertyEntry("ref", ref, [Newline] + t);
        AnnotatedEntry("url", url, Property("ref", ref) + ([Newline] + t));
        Reassociate(Annotated("url", url), Property("ref", ref), [Newline] + t);
        assert EntryNode(e).entries == [Arg(Value(Some("url"), Text(url)))] + ([Prop("ref", PlainValue(ref))] + []);
    }
  }

  lemma ParseOneNode(w: string, values: seq<Token>, entries: seq<Entry>, t: seq<Token>)
    requires ParseEntries(values) == Some((entries, [Newline] + t))
    ensures ParseNode([Word(w)] + values) == Some((Node(w, entries, []), [Newline] + t))
  {
    assert ([Word(w)] + values)[1..] == values;
    assert ParseChildren([Newline] + t) == Some(([], [Newline] + t));
  }

  /** One line of tokens makes one node. */
  lemma ParseLine(w: string, values: seq<Token>, entries: seq<Entry>, t: seq<Token>)
    requires ParseEntries(values) == Some((entries, [Newline] + t))
    requires ParseNodes(t).Some?
    ensures ParseNodes([Word(w)] + values) ==
            Some(([Node(w, entries, [])] + ParseNodes(t).value.0, ParseNodes(t).value.1))
  {
    ParseOneNode(w, values, entries, t);
    NewlineSkipped(t);
  }

  lemma NewlineSkipped(t: seq<Token>)
    ensures ParseNodes([Newline] + t) == ParseNodes(t)
  {
    assert ([Newline] + t)[1..] == t;
  }

  lemma ParseEntryLine(e: PlainRequire, t: seq<Token>)
    requires ParseNodes(t).Some?
    ensures ParseNodes(EntryTokens(e) + t) == Some(([EntryNode(e)] + ParseNodes(t).value.0, ParseNodes(t).value.1))
  {
    ParseValues(e, t);
    ParseLine("require", ValueTokens(e) + ([Newline] + t), EntryNode(e).entries, t);
    Reassociate([Word("require")], ValueTokens(e) + [Newline], t);
    Reassociate(ValueTokens(e), [Newline], t);
  }

  lemma {:induction false} ParseEntryLines(es: seq<PlainRequire>)
    ensures ParseNodes(EntriesTokens(es) + CLOSING) == Some((EntryNodes(es), CLOSING))
  {
    if es == [] {
      assert EntriesTokens(es) + CLOSING == CLOSING;
    } else {
      ParseEntryLines(es[1..]);
      var t := EntriesTokens(es[1..]) + CLOSING;
      ParseEntryLine(es[0], t);
      assert EntriesTokens(es) + CLOSING == EntryTokens(es[0]) + (EntriesTokens(es[1..]) + CLOSING);
    }
  }

  function Children(es: PlainEdges, version: nat): seq<Node> {
    [Node("dep_decl_schema_version", [Arg(Value(None, Int(version)))], [])]
    + ([Node("src_dir", [Arg(PlainValue(es.srcDir))], [])] + EntryNodes(es.entries))
  }

  lemma ParseTextField(w: string, v: string, t: seq<Token>)
    requires ParseNodes(t).Some?
    ensures ParseNodes(Field(w, Str(v)) + t) ==
            Some(([Node(w, [Arg(PlainValue(v))], [])] + ParseNodes(t).value.0, ParseNodes(t).value.1))
  {
    StopsAtNewline(t);
    StringArg(v, [Newline] + t);
    assert [Arg(PlainValue(v))] + [] == [Arg(PlainValue(v))];
    ParseLine(w, [Str(v)] + ([Newline] + t), [Arg(PlainValue(v))], t);
    Reassociate([Word(w)], [Str(v)] + [Newline], t);
    Reassociate([Str(v)], [Newline], t);
  }

  lemma ParseIntField(w: string, n: nat, t: seq<Token>)
    requires ParseNodes(t).Some?
    ensures ParseNodes(Field(w, Num(n)) + t) ==
            Some(([Node(w, [Arg(Value(None, Int(n)))], [])] + ParseNodes(t).value.0, ParseNodes(t).value.1))
  {
    StopsAtNewline(t);
    assert ([Num(n)] + ([Newline] + t))[1..] == [Newline] + t;
    assert [Arg(Value(None, Int(n)))] + [] == [Arg(Value(None, Int(n)))];
    ParseLine(w, [Num(n)] + ([Newline] + t), [Arg(Value(None, Int(n)))], t);
    Reassociate([Word(w)], [Num(n)] + [Newline], t);
    Reassociate([Num(n)], [Newline], t);
  }

  lemma ParseFieldLines(es: PlainEdges, version: nat)
    ensures ParseNodes(FieldsTokens(es, version)) == Some((Children(es, version), CLOSING))
  {
    var t := EntriesTokens(es.entries) + CLOSING;
    ParseEntryLines(es.entries);
    ParseTextField("src_dir", es.srcDir, t);
    ParseIntField("dep_decl_schema_version", version, Field("src_dir", Str(es.srcDir)) + t);
  }

  lemma ParseSerialized(es: PlainEdges, version: nat)
    ensures ParseNodes(Opened(FieldsTokens(es, version))) ==
            Some(([Node("dep_decl", [], Children(es, version))], []))
  {
    var ts := FieldsTokens(es, version);
    ParseFieldLines(es, version);
    NewlineSkipped(ts);
    var block := [LBrace] + ([Newline] + ts);
    assert block[1..] == [Newline] + ts;
    assert Opened(ts)[1..] == block;
    assert ParseEntries(block) == Some(([], block));
    assert CLOSING[1..] == [Newline] + [];
    assert ParseChildren(block) == Some((Children(es, version), [Newline] + []));
    NewlineSkipped([]);
    assert ParseNodes([]) == Some(([], []));
    assert [Node("dep_decl", [], Children(es, version))] + [] == [Node("dep_decl", [], Children(es, version))];
  }

  // ---- Fields --------------------------------------------------------------------------

  /** A printed entry as the parser has it: what is not serialized is at its default. */
  function Parsed(e: PlainRequire): RequireEntry {
    match e
    case Named(name, constraint) => NamedRequire(name, constraint, [], None)
    case Url(url, ref) => UrlRequire(url, ref, [], None, [])
  }

  function ParsedAll(es: seq<PlainRequire>): seq<RequireEntry> {
    if es == [] then [] else [Parsed(es[0])] + ParsedAll(es[1..])
  }

  lemma ArgsCons(v: Value, rest: seq<Entry>)
    ensures ArgsOf([Arg(v)] + rest) == [v] + ArgsOf(rest)
  {
    assert ([Arg(v)] + rest)[1..] == rest;
  }

  lemma ReadEntry(e: PlainRequire)
    ensures ParseRequire(EntryNode(e)) == Some(Parsed(e))
  {
    var n := EntryNode(e);
    match e {
      case Named(name, constraint) =>
        ArgsCons(PlainValue(constraint), []);
        ArgsCons(PlainValue(name), [Arg(PlainValue(constraint))]);
        assert n.entries == [Arg(PlainValue(name))] + [Arg(PlainValue(constraint))];
        assert Args(n) == [PlainValue(name)] + [PlainValue(constraint)];
      case Url(url, ref) =>
        var v, p := Value(Some("url"), Text(url)), Prop("ref", PlainValue(ref));
        assert [p][1..] == [] && ArgsOf([p]) == [];
        ArgsCons(v, [p]);
        assert n.entries == [Arg(v)] + [p];
        assert Args(n) == [v];
        assert PropStr(n.entries, "ref") == Some(ref);
    }
  }

  lemma {:induction false} ReadEntries(f: Fields, es: seq<PlainRequire>)
    ensures AddChildren(f, EntryNodes(es)) == f.(entries := f.entries + ParsedAll(es))
    decreases |es|
  {
    if es == [] {
      assert f.entries + [] == f.entries;
    } else {
      var ns := EntryNodes(es);
      assert ns[0] == EntryNode(es[0]) && ns[1..] == EntryNodes(es[1..]);
      ReadEntry(es[0]);
      ReadEntries(AddChild(f, ns[0]), es[1..]);
      assert f.entries + [Parsed(es[0])] + ParsedAll(es[1..]) == f.entries + ParsedAll(es);
    }
  }

  lemma ReadChildren(es: PlainEdges, version: nat)
    ensures AddChildren(Fields("", [], 0), Children(es, version)) == Fields(es.srcDir, ParsedAll(es.entries), version)
  {
    var ns := Children(es, version);
    var f0 := Fields("", [], 0);
    assert ns[1..][1..] == EntryNodes(es.entries);
    ArgsCons(Value(None, Int(version)), []);
    ArgsCons(PlainValue(es.srcDir), []);
    assert ns[0].entries == [Arg(Value(None, Int(version)))] + [];
    assert ns[1].entries == [Arg(PlainValue(es.srcDir))] + [];
    assert ns[1..][0] == ns[1];
    var f1 := AddChild(f0, ns[0]);
    var f2 := AddChild(f1, ns[1]);
    assert AddChildren(f0, ns) == AddChildren(f1, ns[1..]) == AddChildren(f2, ns[1..][1..]);
    ReadEntries(f2, es.entries);
    assert [] + ParsedAll(es.entries) == ParsedAll(es.entries);
  }

  // ---- The round trip -------------------------------------------------------------------

  /** Parsing what was printed gives back the entries in order, the source directory and the
      version exactly when no string holds an unwritable code point and the text passes the
      depth guard; otherwise it is TNG-DEPDECL-PARSE-ERROR. */
  lemma RoundTrip(es: PlainEdges, version: nat)
    ensures Parse(Serialize(es, version)) ==
            if WritableEdges(es) && NestingOk(Serialize(es, version))
            then Ok((EdgeSet(ParsedAll(es.entries), es.srcDir, DepDeclArtifact), version))
            else Err(ParseError)
  {
    LexSerialized(es, version);
    ParseSerialized(es, version);
    ReadChildren(es, version);
  }

  // ---- One text, one edge set --------------------------------------------------------------

  lemma DropPrefix(p: string, x: string, y: string)
    requires p + x == p + y
    ensures x == y
  {
    assert x == (p + x)[|p|..] && y == (p + y)[|p|..];
  }

  lemma CodeEscapesDiffer(m: nat, n: nat, u: string, v: string)
    requires m < 0x100 && n < 0x100 && CodeEscape(m) + u == CodeEscape(n) + v
    ensures m == n
  {
    var s, t := CodeEscape(m) + u, CodeEscape(n) + v;
    assert s[3] == (if m < 16 then HexUpper(m) else HexUpper(m / 16)) && t[3] == (if n < 16 then HexUpper(n) else HexUpper(n / 16));
    assert s[4] == (if m < 16 then '}' else HexUpper(m % 16)) && t[4] == (if n < 16 then '}' else HexUpper(n % 16));
  }

  predicate IsCoded(c: char) {
    (c as int < 0x20 || c as int == 0x7F) && c != '\n' && c != '\r' && c != '\t'
  }

  lemma SameMark(c: char, d: char)
    requires EscapeChar(c)[0] == EscapeChar(d)[0] && (EscapeChar(c)[0] == '\\' ==> EscapeChar(c)[1] == EscapeChar(d)[1])
    ensures c == d || (IsCoded(c) && IsCoded(d))
  {
    if IsCoded(c) {
      assert EscapeChar(c) == CodeEscape(c as int) && EscapeChar(c)[1] == 'u';
    }
    if IsCoded(d) {
      assert EscapeChar(d) == CodeEscape(d as int) && EscapeChar(d)[1] == 'u';
    }
  }

  /** No escape is the beginning of another. */
  lemma EscapesDiffer(c: char, d: char, u: string, v: string)
    requires EscapeChar(c) + u == EscapeChar(d) + v
    ensures c == d && u == v
  {
    var s, t := EscapeChar(c) + u, EscapeChar(d) + v;
    assert s[0] == EscapeChar(c)[0] && t[0] == EscapeChar(d)[0];
    if s[0] == '\\' {
      assert s[1] == EscapeChar(c)[1] && t[1] == EscapeChar(d)[1];
    }
    SameMark(c, d);
    if IsCoded(c) && IsCoded(d) {
      CodeEscapesDiffer(c as int, d as int, u, v);
    }
    DropPrefix(EscapeChar(c), u, v);
  }

  lemma StartsWithoutQuote(s: string, x: string)
    requires s != ""
    ensures (Escape(s) + x)[0] != '"'
  {
    assert (Escape(s) + x)[0] == EscapeChar(s[0])[0];
  }

  lemma {:induction false} EscapeEnds(a: string, b: string, x: string, y: string)
    requires Escape(a) + ("\"" + x) == Escape(b) + ("\"" + y)
    ensures a == b && x == y
  {
    if a != "" {
      StartsWithoutQuote(a, "\"" + x);
    }
    if b != "" {
      StartsWithoutQuote(b, "\"" + y);
    }
    if a == "" {
      assert Escape("") + ("\"" + x) == "\"" + x && Escape("") + ("\"" + y) == "\"" + y;
      assert b == "";
      DropPrefix("\"", x, y);
    } else {
      assert b != "" by {
        assert Escape("") + ("\"" + y) == "\"" + y;
      }
      var u, v := Escape(a[1..]) + ("\"" + x), Escape(b[1..]) + ("\"" + y);
      Reassociate(EscapeChar(a[0]), Escape(a[1..]), "\"" + x);
      Reassociate(EscapeChar(b[0]), Escape(b[1..]), "\"" + y);
      EscapesDiffer(a[0], b[0], u, v);
      EscapeEnds(a[1..], b[1..], x, y);
      assert a == [a[0]] + a[1..] && b == [b[0]] + b[1..];
    }
  }

  /** Where a printed string ends is told by itself, whatever is in it and whatever follows. */
  lemma KdlStrEnds(a: string, b: string, x: string, y: string)
    requires KdlStr(a) + x == KdlStr(b) + y
    ensures a == b && x == y
  {
    var q := "\"";
    Nest3(q, Escape(a), q, x);
    Nest3(q, Escape(b), q, y);
    assert KdlStr(a) == q + (Escape(a) + q) && KdlStr(b) == q + (Escape(b) + q);
    DropPrefix(q, Escape(a) + (q + x), Escape(b) + (q + y));
    EscapeEnds(a, b, x, y);
  }

  lemma DecimalEnds(m: nat, n: nat, x: string, y: string)
    requires Decimal(m) + ("\n" + x) == Decimal(n) + ("\n" + y)
    ensures m == n && x == y
  {
    DecimalReads(m);
    DecimalReads(n);
    NoNewline(Decimal(m));
    NoNewline(Decimal(n));
    Reassociate(Decimal(m), "\n", x);
    Reassociate(Decimal(n), "\n", y);
    FirstSplitUnique(Decimal(m), "\n", x, Decimal(n), y);
  }

  lemma NoNewline(w: string)
    requires forall c :: c in w ==> IsDigit(c)
    ensures !Contains(w, "\n")
  {
    forall i | 0 <= i <= |w| - 1
      ensures !OccursAt(w, "\n", i)
    {
      assert w[i] in w && w[i..i + 1][0] == w[i];
    }
  }

  // Two printed strings after a beginning, with something between and after them.
  lemma TwoStringsEnd(p: string, q: string, e: string, a: string, b: string, x: string, c: string, d: string, y: string)
    requires p + KdlStr(a) + q + KdlStr(b) + e + x == p + KdlStr(c) + q + KdlStr(d) + e + y
    ensures a == c && b == d && x == y
  {
    Nest5(p, KdlStr(a), q, KdlStr(b), e, x);
    Nest5(p, KdlStr(c), q, KdlStr(d), e, y);
    var u, v := KdlStr(b) + (e + x), KdlStr(d) + (e + y);
    DropPrefix(p, KdlStr(a) + (q + u), KdlStr(c) + (q + v));
    KdlStrEnds(a, c, q + u, q + v);
    DropPrefix(q, u, v);
    KdlStrEnds(b, d, e + x, e + y);
    DropPrefix(e, x, y);
  }

  // The character after the word: a quote, or the parenthesis of the annotation.
  lemma LineForm(e: PlainRequire, x: string)
    ensures |RequireLine(e) + "\n" + x| > 12
    ensures (RequireLine(e) + "\n" + x)[0] == ' '
    ensures (RequireLine(e) + "\n" + x)[12] == if e.Named? then '"' else '('
  {
    match e
    case Named(name, constraint) => TwoStringsForm("    require ", " ", name, constraint, "\n" + x);
    case Url(url, ref) => TwoStringsForm("    require (url)", " ref=", url, ref, "\n" + x);
    Nest2(RequireLine(e), "\n", x);
  }

  lemma TwoStringsForm(p: string, q: string, a: string, b: string, t: string)
    ensures var s := p + KdlStr(a) + q + KdlStr(b) + t;
            |s| > |p| && s[|p|] == '"' && forall i :: 0 <= i < |p| ==> s[i] == p[i]
  {
    assert KdlStr(a)[0] == '"';
    Nest5(p, KdlStr(a), q, KdlStr(b), t, "");
    assert p + KdlStr(a) + q + KdlStr(b) + t + "" == p + KdlStr(a) + q + KdlStr(b) + t;
  }

  lemma LineEnds(a: PlainRequire, b: PlainRequire, x: string, y: string)
    requires RequireLine(a) + "\n" + x == RequireLine(b) + "\n" + y
    ensures a == b && x == y
  {
    LineForm(a, x);
    LineForm(b, y);
    match a
    case Named(name, constraint) =>
      TwoStringsEnd("    require ", " ", "\n", name, constraint, x, b.name, b.constraint, y);
    case Url(url, ref) =>
      TwoStringsEnd("    require (url)", " ref=", "\n", url, ref, x, b.url, b.ref, y);
  }

  function Closed(es: seq<PlainRequire>): string {
    Unlines(RequireLines(es) + ["}"])
  }

  lemma ClosedForm(es: seq<PlainRequire>)
    ensures es == [] ==> Closed(es) == "}" + "\n"
    ensures es != [] ==> Closed(es) == RequireLine(es[0]) + "\n" + Closed(es[1..])
  {
    if es == [] {
      assert [] + ["}"] == ["}"];
      assert ["}"][1..] == [];
    } else {
      assert RequireLines(es) + ["}"] == [RequireLine(es[0])] + (RequireLines(es[1..]) + ["}"]);
      UnlinesCons(RequireLine(es[0]), RequireLines(es[1..]) + ["}"]);
    }
  }

  lemma {:induction false} ClosedInjective(a: seq<PlainRequire>, b: seq<PlainRequire>)
    requires Closed(a) == Closed(b)
    ensures a == b
  {
    ClosedForm(a);
    ClosedForm(b);
    if a != [] {
      LineForm(a[0], Closed(a[1..]));
    }
    if b != [] {
      LineForm(b[0], Closed(b[1..]));
    }
    if a != [] {
      LineEnds(a[0], b[0], Closed(a[1..]), Closed(b[1..]));
      ClosedInjective(a[1..], b[1..]);
      assert a == [a[0]] + a[1..] && b == [b[0]] + b[1..];
    }
  }

  // The two fields before the entries.
  lemma FieldsEnd(o: string, v: string, d: string, m: nat, a: string, x: string, n: nat, b: string, y: string)
    requires o + "\n" + (v + Decimal(m) + "\n" + (d + KdlStr(a) + "\n" + x)) ==
             o + "\n" + (v + Decimal(n) + "\n" + (d + KdlStr(b) + "\n" + y))
    ensures m == n && a == b && x == y
  {
    var s, t := d + KdlStr(a) + "\n" + x, d + KdlStr(b) + "\n" + y;
    DropPrefix(o + "\n", v + Decimal(m) + "\n" + s, v + Decimal(n) + "\n" + t);
    Nest4(v, Decimal(m), "\n", s);
    Nest4(v, Decimal(n), "\n", t);
    DropPrefix(v, Decimal(m) + ("\n" + s), Decimal(n) + ("\n" + t));
    DecimalEnds(m, n, s, t);
    Nest4(d, KdlStr(a), "\n", x);
    Nest4(d, KdlStr(b), "\n", y);
    DropPrefix(d, KdlStr(a) + ("\n" + x), KdlStr(b) + ("\n" + y));
    KdlStrEnds(a, b, "\n" + x, "\n" + y);
    DropPrefix("\n", x, y);
  }

  /** One text, one edge set and version: an artifact can only be of the edges it was made of,
      also where it cannot be parsed. */
  lemma SerializeInjective(a: PlainEdges, m: nat, b: PlainEdges, n: nat)
    requires Serialize(a, m) == Serialize(b, n)
    ensures a == b && m == n
  {
    SerializeText(a, m);
    SerializeText(b, n);
    FieldsEnd("dep_decl {", "    dep_decl_schema_version ", "    src_dir ",
              m, a.srcDir, Closed(a.entries), n, b.srcDir, Closed(b.entries));
    ClosedInjective(a.entries, b.entries);
  }

  // ---- The guard counts braces inside strings ----------------------------------------------

  function BraceDepth(s: string, d: nat): nat {
    if s == "" then d
    else if s[0] == '{' then BraceDepth(s[1..], d + 1)
    else if s[0] == '}' then BraceDepth(s[1..], if d > 0 then d - 1 else 0)
    else BraceDepth(s[1..], d)
  }

  lemma {:induction false} BraceMaxConcat(a: string, b: string, d: nat)
    ensures BraceMax(a + b, d) >= BraceMax(b, BraceDepth(a, d))
  {
    if a == "" {
      assert a + b == b;
    } else {
      assert (a + b)[1..] == a[1..] + b;
      var d' := if a[0] == '{' then d + 1 else if a[0] == '}' && d > 0 then d - 1 else d;
      BraceMaxConcat(a[1..], b, d');
    }
  }

  lemma {:induction false} NoBraces(s: string, d: nat)
    requires '{' !in s && '}' !in s
    ensures BraceDepth(s, d) == d
  {
    if s != "" {
      NoBraces(s[1..], d);
    }
  }

  lemma {:induction false} OpeningBraces(s: string, t: string, d: nat)
    requires forall c :: c in s ==> c == '{'
    ensures Escape(s) == s
    ensures s != "" ==> BraceMax(s + t, d) >= d + |s|
  {
    if s != "" {
      assert (s + t)[1..] == s[1..] + t;
      assert s == [s[0]] + s[1..];
      assert s[0] in s && forall c :: c in s[1..] ==> c in s;
      OpeningBraces(s[1..], t, d + 1);
    }
  }

  /** The guard scans strings like the rest of the text, so 32 opening braces in a source
      directory, which KDL would take, are too many besides the one around the fields. */
  lemma BracesFailTheGuard(srcDir: string, version: nat)
    requires |srcDir| == MAX_NESTING_DEPTH && forall c :: c in srcDir ==> c == '{'
    ensures WritableEdges(PlainEdges([], srcDir))
    ensures Parse(Serialize(PlainEdges([], srcDir), version)) == Err(ParseError)
  {
    OpeningBraces(srcDir, "", 1);
    assert forall c :: c in srcDir ==> !Unwritable(c);
    GuardRejects(srcDir, version);
    RoundTrip(PlainEdges([], srcDir), version);
  }

  function Header(v: string): string {
    "\n    dep_decl_schema_version " + v + "\n    src_dir \""
  }

  lemma HeaderHasNoBraces(v: string)
    requires forall c :: c in v ==> IsDigit(c)
    ensures '{' !in Header(v) && '}' !in Header(v)
  {
    var a, b := "\n    dep_decl_schema_version ", "\n    src_dir \"";
    assert '{' !in a && '}' !in a;
    assert '{' !in b && '}' !in b;
    assert '{' !in v && '}' !in v;
  }

  lemma GuardRejects(srcDir: string, version: nat)
    requires |srcDir| == MAX_NESTING_DEPTH && forall c :: c in srcDir ==> c == '{'
    ensures !NestingOk(Serialize(PlainEdges([], srcDir), version))
  {
    var tail := Unlines(RequireLines([]) + ["}"]);
    SerializeText(PlainEdges([], srcDir), version);
    OpeningBraces(srcDir, "", 1);
    DecimalReads(version);
    HeaderHasNoBraces(Decimal(version));
    HeaderText(Decimal(version), srcDir, tail);
    DeepText("dep_decl ", Header(Decimal(version)), srcDir, "\"" + ("\n" + tail));
  }

  lemma DeepText(name: string, header: string, srcDir: string, rest: string)
    requires '{' !in name && '}' !in name && '{' !in header && '}' !in header
    requires |srcDir| == MAX_NESTING_DEPTH && forall c :: c in srcDir ==> c == '{'
    ensures !NestingOk(name + ("{" + (header + (srcDir + rest))))
  {
    var body := header + (srcDir + rest);
    NoBraces(name, 0);
    NoBraces(header, 1);
    OpeningBraces(srcDir, rest, 1);
    BraceMaxConcat(header, srcDir + rest, 1);
    BraceMaxConcat(name, "{" + body, 0);
    assert ("{" + body)[1..] == body;
  }

  lemma HeaderText(v: string, srcDir: string, tail: string)
    ensures "dep_decl {" + "\n" + ("    dep_decl_schema_version " + v + "\n"
            + ("    src_dir " + ("\"" + srcDir + "\"") + "\n" + tail)) ==
            "dep_decl " + ("{" + (Header(v) + (srcDir + ("\"" + ("\n" + tail)))))
  {
    assert "dep_decl {" == "dep_decl " + "{";
    HeaderLiterals();
    HeaderShape("dep_decl ", "{", "\n", "    dep_decl_schema_version ", v, "    src_dir ", "\"", srcDir, tail);
  }

  lemma HeaderLiterals()
    ensures "\n    dep_decl_schema_version " == "\n" + "    dep_decl_schema_version "
    ensures "\n    src_dir \"" == "\n" + ("    src_dir " + "\"")
  {
  }

  // The same text, put together from the left and from the right.
  lemma HeaderShape(d: string, o: string, n: string, a: string, v: string, b: string, q: string, src: string, tail: string)
    ensures (d + o) + n + (a + v + n + (b + (q + src + q) + n + tail)) ==
            d + (o + (((n + a) + v + (n + (b + q))) + (src + (q + (n + tail)))))
  {
    assert b + (q + src + q) + n + tail == (b + q) + (src + (q + (n + tail)));
    assert a + v + n + ((b + q) + (src + (q + (n + tail)))) == a + v + (n + (b + q)) + (src + (q + (n + tail)));
  }
}
