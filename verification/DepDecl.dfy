// DepDecl artifacts: the harness's printer against the resolver's parser.
module DepDecl {
  import opened Common
  import opened Kdl
  import opened Edges

  // ---- The printer -----------------------------------------------------------------

  // What the printer knows of an edge set: no more is serialized.
  datatype PlainRequire = Named(name: string, constraint: string) | Url(url: string, ref: string)
  datatype PlainEdges = PlainEdges(entries: seq<PlainRequire>, srcDir: string)

  function HexUpper(d: nat): char
    requires d < 16
  {
    if d < 10 then '0' + d as char else 'A' + (d - 10) as char
  }

  function CodeDigits(n: nat): string
    requires n < 0x100
  {
    if n < 16 then [HexUpper(n)] else [HexUpper(n / 16), HexUpper(n % 16)]
  }

  /** \u{...} for the control characters without an escape of their own, none above 0x7F. */
  function CodeEscape(n: nat): string
    requires n < 0x100
  {
    "\\u{" + CodeDigits(n) + "}"
  }

  function EscapeChar(c: char): string {
    if c == '\\' then "\\\\"
    else if c == '"' then "\\\""
    else if c == '\n' then "\\n"
    else if c == '\r' then "\\r"
    else if c == '\t' then "\\t"
    else if c as int < 0x20 || c as int == 0x7F then CodeEscape(c as int)
    else [c]
  }

  function Escape(s: string): string {
    if s == "" then "" else EscapeChar(s[0]) + Escape(s[1..])
  }

  function KdlStr(s: string): string {
    "\"" + Escape(s) + "\""
  }

  lemma Reassociate<T>(a: seq<T>, b: seq<T>, c: seq<T>)
    ensures (a + b) + c == a + (b + c)
  {
  }

  method KdlStrOf(value: string) returns (r: string)
    ensures r == KdlStr(value)
  {
    var out := "";
    var i := 0;
    while i < |value|
      invariant 0 <= i <= |value|
      invariant out + Escape(value[i..]) == Escape(value)
    {
      var ch := value[i];
      assert value[i..][1..] == value[i + 1..];
      var piece: string;
      if ch == '\\' {
        piece := "\\\\";
      } else if ch == '"' {
        piece := "\\\"";
      } else if ch == '\n' {
        piece := "\\n";
      } else if ch == '\r' {
        piece := "\\r";
      } else if ch == '\t' {
        piece := "\\t";
      } else if ch as int < 0x20 || ch as int == 0x7F {
        piece := CodeEscape(ch as int);
      } else {
        piece := [ch];
      }
      Reassociate(out, piece, Escape(value[i + 1..]));
      out := out + piece;
      i := i + 1;
    }
    assert value[i..] == "";
    r := "\"" + out + "\"";
  }

  function Decimal(n: nat): string {
    (if n < 10 then "" else Decimal(n / 10)) + ['0' + (n % 10) as char]
  }

  function RequireLine(e: PlainRequire): string {
    match e
    case Named(name, constraint) => "    require " + KdlStr(name) + " " + KdlStr(constraint)
    case Url(url, ref) => "    require (url)" + KdlStr(url) + " ref=" + KdlStr(ref)
  }

  function RequireLines(es: seq<PlainRequire>): seq<string> {
    if es == [] then [] else [RequireLine(es[0])] + RequireLines(es[1..])
  }

  function Lines(es: PlainEdges, version: nat): seq<string> {
    ["dep_decl {", "    dep_decl_schema_version " + Decimal(version), "    src_dir " + KdlStr(es.srcDir)]
    + RequireLines(es.entries) + ["}"]
  }

  function Serialize(es: PlainEdges, version: nat): string {
    Join("\n", Lines(es, version)) + "\n"
  }

  method CanonicalSerialize(es: PlainEdges, version: nat) returns (text: string)
    ensures text == Serialize(es, version)
  {
    var lines := ["dep_decl {"];
    lines := lines + ["    dep_decl_schema_version " + Decimal(version)];
    var srcDir := KdlStrOf(es.srcDir);
    lines := lines + ["    src_dir " + srcDir];
    ghost var head := lines;
    var i := 0;
    while i < |es.entries|
      invariant 0 <= i <= |es.entries|
      invariant lines + RequireLines(es.entries[i..]) == head + RequireLines(es.entries)
    {
      var entry := es.entries[i];
      assert es.entries[i..][1..] == es.entries[i + 1..];
      var line: string;
      match entry {
        case Named(name, constraint) =>
          var n := KdlStrOf(name);
          var c := KdlStrOf(constraint);
          line := "    require " + n + " " + c;
        case Url(url, ref) =>
          var u := KdlStrOf(url);
          var f := KdlStrOf(ref);
          line := "    require (url)" + u + " ref=" + f;
      }
      Reassociate(lines, [line], RequireLines(es.entries[i + 1..]));
      lines := lines + [line];
      i := i + 1;
    }
    assert lines == head + RequireLines(es.entries);
    lines := lines + ["}"];
    assert lines == Lines(es, version);
    text := Join("\n", lines) + "\n";
  }

  // ---- The parser ------------------------------------------------------------------------

  // TNG-DEPDECL-PARSE-ERROR
  datatype ParseError = ParseError

  function Args(n: Node): seq<Value> {
    ArgsOf(n.entries)
  }

  function ArgsOf(es: seq<Entry>): seq<Value> {
    if es == [] then []
    else (if es[0].Arg? then [es[0].value] else []) + ArgsOf(es[1..])
  }

  /** node_arg_str */
  function ArgStr(n: Node, i: nat): Option<string> {
    if i < |Args(n)| && Args(n)[i].scalar.Text? then Some(Args(n)[i].scalar.s) else None
  }

  /** node_prop_str: of one key, the last property counts. */
  function PropStr(es: seq<Entry>, key: string): Option<string> {
    if es == [] then None
    else
      var last := es[|es| - 1];
      if last.Prop? && last.key == key then
        (if last.value.scalar.Text? then Some(last.value.scalar.s) else None)
      else
        PropStr(es[..|es| - 1], key)
  }

  function OrEmpty(o: Option<string>): string {
    if o.Some? then o.value else ""
  }

  /** _parse_require_node; an unrecognized form is no entry. */
  function ParseRequire(n: Node): Option<RequireEntry> {
    if |Args(n)| > 0 && Args(n)[0].tag == Some("url") then
      (match Args(n)[0].scalar
       case Text(url) => Some(UrlRequire(url, OrEmpty(PropStr(n.entries, "ref")), [], None, []))
       case Int(_) => None)
    else
      match ArgStr(n, 0)
      case Some(name) => Some(NamedRequire(name, OrEmpty(ArgStr(n, 1)), [], None))
      case None => None
  }

  // The locals of the loop over the children.
  datatype Fields = Fields(srcDir: string, entries: seq<RequireEntry>, version: nat)

  function AddChild(f: Fields, n: Node): Fields {
    if n.name == "dep_decl_schema_version" then
      (if |Args(n)| > 0 && Args(n)[0].scalar.Int? then f.(version := Args(n)[0].scalar.n) else f)
    else if n.name == "src_dir" then
      (if ArgStr(n, 0).Some? then f.(srcDir := ArgStr(n, 0).value) else f)
    else if n.name == "require" then
      (if ParseRequire(n).Some? then f.(entries := f.entries + [ParseRequire(n).value]) else f)
    else f
  }

  function AddChildren(f: Fields, ns: seq<Node>): Fields
    decreases |ns|
  {
    if ns == [] then f else AddChildren(AddChild(f, ns[0]), ns[1..])
  }

  function Parse(text: string): Result<(EdgeSet, nat), ParseError> {
    match ParseDocument(text)
    case None => Err(ParseError)
    case Some(nodes) =>
      if |nodes| != 1 || nodes[0].name != "dep_decl" then Err(ParseError)
      else
        var f := AddChildren(Fields("", [], 0), nodes[0].children);
        Ok((EdgeSet(f.entries, f.srcDir, DepDeclArtifact), f.version))
  }

  method ParseDepDecl(text: string) returns (r: Result<(EdgeSet, nat), ParseError>)
    ensures r == Parse(text)
  {
    var nested := CheckNestingDepth(text);
    if !nested {
      return Err(ParseError);
    }
    var doc := ParseDocument(text);
    if doc.None? || |doc.value| != 1 || doc.value[0].name != "dep_decl" {
      return Err(ParseError);
    }
    var children := doc.value[0].children;
    var srcDir, required: seq<RequireEntry>, version: nat := "", [], 0;
    var i := 0;
    while i < |children|
      invariant 0 <= i <= |children|
      invariant AddChildren(Fields(srcDir, required, version), children[i..]) ==
                AddChildren(Fields("", [], 0), children)
    {
      var child := children[i];
      assert children[i..][1..] == children[i + 1..];
      if child.name == "dep_decl_schema_version" {
        if |Args(child)| > 0 && Args(child)[0].scalar.Int? {
          version := Args(child)[0].scalar.n;
        }
      } else if child.name == "src_dir" {
        var val := ArgStr(child, 0);
        if val.Some? {
          srcDir := val.value;
        }
      } else if child.name == "require" {
        var entry := ParseRequire(child);
        if entry.Some? {
          required := required + [entry.value];
        }
      }
      i := i + 1;
    }
    r := Ok((EdgeSet(required, srcDir, DepDeclArtifact), version));
  }
}
