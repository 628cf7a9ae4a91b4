// The edge set: one package version's declared dependencies, whatever they were read from.
module Edges {
  import opened Common

  datatype Predicate = Predicate(name: string, values: seq<string>, negated: bool)

  // `declared` is the name the declaration gave a URL dependency; DepDecl artifacts give none.
  datatype RequireEntry =
    | NamedRequire(name: string, constraint: string, predicates: seq<Predicate>, namespace: Option<string>)
    | UrlRequire(url: string, ref: string, predicates: seq<Predicate>, declared: Option<string>, flags: seq<string>)

  datatype EdgeSource = DepDeclArtifact | MilpaKdl | NimbleFallback

  datatype EdgeSet = EdgeSet(entries: seq<RequireEntry>, srcDir: string, source: EdgeSource)
}
