/**
  `Config::new`: resolving the query, the file name and the case mode from
  the command-line tokens and the `CASE_INSENSITIVE` environment lookup.
 */
module Configuration {

  datatype Option<T> = None | Some(value: T)

  datatype Result<T, E> = Ok(value: T) | Err(error: E)

  /** Why `env::var` fails: the variable is unset, or its value is not valid Unicode. */
  datatype VarError = NotPresent | NotUnicode

  /** What `env::var("CASE_INSENSITIVE")` returned. */
  type EnvLookup = Result<string, VarError>

  datatype Config = Config(query: string, filename: string, caseSensitive: bool)

  const MissingQueryMessage: string := "Didn't get a query string!"
  const MissingFilenameMessage: string := "Didn't get a input filename!"

  /**
    `Iterator::next` on the argument tokens, the iterator being a cursor into
    `args`: the next token and the advanced cursor, or `None` and the same
    cursor once the tokens are used up.
   */
  function NextArg(args: seq<string>, cursor: nat): (r: (Option<string>, nat))
    requires cursor <= |args|
    ensures r.1 <= |args|
    ensures r.0.Some? <==> cursor < |args|
    ensures r.0.Some? ==> r.0.value == args[cursor] && r.1 == cursor + 1
    ensures r.0.None? ==> r.1 == cursor
  {
    if cursor < |args| then (Some(args[cursor]), cursor + 1) else (None, cursor)
  }

  /** What `k` successive calls of `args.next()` yield, the first at `cursor`. */
  function Drain(args: seq<string>, cursor: nat, k: nat): (r: seq<Option<string>>)
    requires cursor <= |args|
    ensures |r| == k
    decreases k
  {
    if k == 0 then []
    else
      var (token, next) := NextArg(args, cursor);
      [token] + Drain(args, next, k - 1)
  }

  /**
    The argument iterator is fused: call `j` of a run that starts at `cursor`
    yields the token at `cursor + j` while tokens remain, and `None` ever
    after. Starting at 0, call `j` yields `Some(args[j])` for every `j < |args|`.
   */
  lemma {:induction false} DrainYields(args: seq<string>, cursor: nat, k: nat)
    requires cursor <= |args|
    ensures forall j :: 0 <= j < k ==>
              Drain(args, cursor, k)[j] == if cursor + j < |args| then Some(args[cursor + j]) else None
    decreases k
  {
    if k > 0 {
      var (token, next) := NextArg(args, cursor);
      DrainYields(args, next, k - 1);
      forall j | 0 <= j < k
        ensures Drain(args, cursor, k)[j] == if cursor + j < |args| then Some(args[cursor + j]) else None
      {
        if j > 0 {
          assert Drain(args, cursor, k)[j] == Drain(args, next, k - 1)[j - 1];
        }
      }
    }
  }

  /**
    `Config::new`: skip the program name, then take the query and the file
    name in that order; tokens after them are never looked at. The search is
    case-sensitive exactly when the lookup of `CASE_INSENSITIVE` failed.
   */
  function NewConfig(args: seq<string>, caseInsensitive: EnvLookup): (r: Result<Config, string>)
    ensures r.Ok? <==> |args| >= 3
    ensures |args| <= 1 ==> r == Err(MissingQueryMessage)
    ensures |args| == 2 ==> r == Err(MissingFilenameMessage)
    ensures r.Ok? ==> r.value.query == args[1] && r.value.filename == args[2]
    ensures r.Ok? ==> (r.value.caseSensitive <==> caseInsensitive.Err?)
  {
    var (_, afterProgram) := NextArg(args, 0);
    var (query, afterQuery) := NextArg(args, afterProgram);
    match query
    case None => Err(MissingQueryMessage)
    case Some(q) =>
      var (filename, _) := NextArg(args, afterQuery);
      match filename
      case None => Err(MissingFilenameMessage)
      case Some(f) => Ok(Config(q, f, caseInsensitive.Err?))
  }

  /** The two failures are told apart by their messages. */
  lemma ErrorMessagesDiffer()
    ensures MissingQueryMessage != MissingFilenameMessage
  {
    assert |MissingQueryMessage| != |MissingFilenameMessage|;
  }

  /** Tokens after the file name do not change the outcome. */
  lemma ExtraArgsIgnored(args: seq<string>, extra: seq<string>, caseInsensitive: EnvLookup)
    requires |args| >= 3
    ensures NewConfig(args + extra, caseInsensitive) == NewConfig(args, caseInsensitive)
  {
  }

  /** Only whether `CASE_INSENSITIVE` is readable matters, never its value (the empty string included). */
  lemma CaseModeIgnoresValue(args: seq<string>, v: string, w: string)
    ensures NewConfig(args, Ok(v)) == NewConfig(args, Ok(w))
    ensures NewConfig(args, Ok("")) == NewConfig(args, Ok(v))
  {
  }

  /** The two configuration tests of the crate: a lone argument fails, two succeed. */
  lemma ConfigExamples(caseInsensitive: EnvLookup)
    ensures NewConfig(["filepath", "e1"], caseInsensitive) == Err(MissingFilenameMessage)
    ensures NewConfig(["filepath", "e1", "e2"], caseInsensitive).Ok?
    ensures NewConfig(["filepath", "e1", "e2"], Err(NotPresent)).value == Config("e1", "e2", true)
  {
  }
}
