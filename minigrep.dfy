/** The minigrep library (src/lib.rs): building a configuration from the
    command-line arguments, and the two line filters. The lookup of the
    `IGNORE_CASE` environment variable is a boolean parameter here. */
module Minigrep {
  import opened Filtering
  import opened StrOps

  datatype Option<T> = None | Some(value: T)

  /** `Result<T, &'static str>`: a value, or one of the fixed error messages. */
  datatype Result<T> = Ok(value: T) | Err(error: string)

  const MissingQuery: string := "Didn't get a query string"
  const MissingFilePath: string := "Didn't get a file path"

  /** The configuration of one invocation. */
  datatype Config = Config(query: string, filePath: string, ignoreCase: bool)

  /** An iterator over argument strings: the strings and how many were consumed. */
  class ArgIter {
    const items: seq<string>
    var pos: nat

    constructor (items: seq<string>)
      ensures this.items == items && pos == 0
    {
      this.items := items;
      pos := 0;
    }

    /** The next argument, if one is left; an exhausted iterator stays exhausted. */
    method Next() returns (arg: Option<string>)
      modifies this
      ensures old(pos) < |items| ==> arg == Some(items[old(pos)]) && pos == old(pos) + 1
      ensures |items| <= old(pos) ==> arg == None && pos == old(pos)
    {
      if pos < |items| {
        arg := Some(items[pos]);
        pos := pos + 1;
      } else {
        arg := None;
      }
    }
  }

  /** `Config::build`: skip the program name, then take the query and the file
      path in turn, failing on the first one missing; arguments after those are
      ignored. `envHasIgnoreCase` stands for `env::var("IGNORE_CASE").is_ok()`:
      the variable is set and its value is valid Unicode. `ignore_case` is
      that flag, whatever the arguments. */
  method Build(args: seq<string>, envHasIgnoreCase: bool) returns (r: Result<Config>)
    ensures |args| < 2 <==> r == Err(MissingQuery)
    ensures |args| == 2 <==> r == Err(MissingFilePath)
    ensures r.Ok? <==> |args| >= 3
    ensures r.Ok? ==> r.value == Config(args[1], args[2], envHasIgnoreCase)
  {
    var it := new ArgIter(args);
    var _ := it.Next();
    var query := it.Next();
    if query.None? {
      return Err(MissingQuery);
    }
    var filePath := it.Next();
    if filePath.None? {
      return Err(MissingFilePath);
    }
    return Ok(Config(query.value, filePath.value, envHasIgnoreCase));
  }

  /** `search`: the lines of `contents` that contain `query`. It keeps exactly
      those lines: the result is a subsequence of the lines (so order is kept
      and it is no longer), every line in it contains the query, and every line
      of the contents that contains the query is in it as often as in the
      contents. */
  function Search(query: string, contents: string): (r: seq<string>)
    ensures KeepsExactly(r, Lines(contents), line => Contains(line, query))
    ensures forall i :: 0 <= i < |r| ==> Contains(r[i], query)
  {
    FilterKeepsExactly(Lines(contents), line => Contains(line, query));
    Filter(Lines(contents), line => Contains(line, query))
  }

  /** `search_case_insensitive`: the lines of `contents` whose lowercased form
      contains the lowercased `query`, kept exactly as `Search` keeps its lines
      and returned as they are, not lowercased: the result is a subsequence of
      the original lines. */
  function SearchCaseInsensitive(query: string, contents: string): (r: seq<string>)
    ensures KeepsExactly(r, Lines(contents), line => Contains(Lower(line), Lower(query)))
    ensures forall i :: 0 <= i < |r| ==> Contains(Lower(r[i]), Lower(query))
  {
    var q := Lower(query);
    FilterKeepsExactly(Lines(contents), line => Contains(Lower(line), q));
    Filter(Lines(contents), line => Contains(Lower(line), q))
  }

  /** Any result that keeps exactly the matching lines in order is the result of `search`. */
  lemma SearchIsTheOnlyExactFilter(query: string, contents: string, r: seq<string>)
    requires KeepsExactly(r, Lines(contents), line => Contains(line, query))
    ensures r == Search(query, contents)
  {
    FilterUnique(r, Lines(contents), line => Contains(line, query));
  }

  /** Empty contents have no lines, so nothing matches. */
  lemma SearchEmptyContents(query: string)
    ensures Search(query, "") == []
    ensures SearchCaseInsensitive(query, "") == []
  {
  }

  /** The empty query is contained in every line, so every line is returned unchanged. */
  lemma SearchEmptyQuery(contents: string)
    ensures Search("", contents) == Lines(contents)
    ensures SearchCaseInsensitive("", contents) == Lines(contents)
  {
    var ls := Lines(contents);
    FilterAll(ls, line => Contains(line, ""));
    FilterAll(ls, line => Contains(Lower(line), Lower("")));
  }

  /** A query longer than every line matches nothing, with or without case. */
  lemma SearchLongQuery(query: string, contents: string)
    requires forall i :: 0 <= i < |Lines(contents)| ==> |Lines(contents)[i]| < |query|
    ensures Search(query, contents) == []
    ensures SearchCaseInsensitive(query, contents) == []
  {
    FilterNone(Lines(contents), line => Contains(line, query));
    FilterNone(Lines(contents), line => Contains(Lower(line), Lower(query)));
  }

  /** Every line `search` returns, `search_case_insensitive` returns too, in the same order. */
  lemma SearchWithinCaseInsensitive(query: string, contents: string)
    ensures IsSubseq(Search(query, contents), SearchCaseInsensitive(query, contents))
    ensures forall l :: l in Search(query, contents) ==> l in SearchCaseInsensitive(query, contents)
  {
    var ls := Lines(contents);
    var q := Lower(query);
    forall i | 0 <= i < |ls| && Contains(ls[i], query) ensures Contains(Lower(ls[i]), q) {
      ContainsLower(ls[i], query);
    }
    FilterMonotone(ls, line => Contains(line, query), line => Contains(Lower(line), q));
    SubseqMultiset(Search(query, contents), SearchCaseInsensitive(query, contents));
    forall l | l in Search(query, contents) ensures l in SearchCaseInsensitive(query, contents) {
      assert l in multiset(Search(query, contents));
    }
  }

  /** Only the lowercased query matters to `search_case_insensitive`. */
  lemma CaseInsensitiveIgnoresQueryCase(query: string, contents: string)
    ensures SearchCaseInsensitive(query, contents) == SearchCaseInsensitive(Lower(query), contents)
  {
    LowerIdempotent(query);
  }

  /** The contents used by the unit tests: three lines, the last without a line break. */
  const Poem: string := "Rust:" + "\n" + "safe, fast, productive." + "\n" + "Pick three."

  /** The lines of the poem used by the unit tests. */
  lemma PoemLines()
    ensures Lines(Poem) == ["Rust:", "safe, fast, productive.", "Pick three."]
  {
    var ls, crlf := ["Rust:", "safe, fast, productive."], [false, false];
    assert Joined(ls[1..][1..], crlf[1..][1..]) == [];
    assert Joined(ls[1..], crlf[1..]) == "safe, fast, productive." + "\n";
    assert Joined(ls, crlf) == "Rust:" + "\n" + ("safe, fast, productive." + "\n");
    LinesOfJoined(ls, crlf, "Pick three.");
    assert Joined(ls, crlf) + "Pick three." == Poem;
    assert ls + ["Pick three."] == ["Rust:", "safe, fast, productive.", "Pick three."];
  }

  /** Filtering the poem's three lines keeps just the middle one when only it is accepted. */
  lemma KeepsMiddleLine(p: string -> bool)
    requires !p("Rust:") && p("safe, fast, productive.") && !p("Pick three.")
    ensures Filter(["Rust:", "safe, fast, productive.", "Pick three."], p) == ["safe, fast, productive."]
  {
  }

  /** Only the middle line of the poem holds "duct". */
  lemma DuctInPoem()
    ensures !Contains("Rust:", "duct")
    ensures Contains("safe, fast, productive.", "duct")
    ensures !Contains("Pick three.", "duct")
  {
    assert OccursAt("duct", "safe, fast, productive.", 15);
    FirstCharAbsent("Rust:", "duct");
    FirstCharAbsent("Pick three.", "duct");
  }

  /** Lowercasing the test query and the poem's lines. */
  lemma LowerPoem()
    ensures Lower("DUcT") == "duct"
    ensures Lower("Rust:") == "rust:"
    ensures Lower("safe, fast, productive.") == "safe, fast, productive."
    ensures Lower("Pick three.") == "pick three."
  {
  }

  /** The case-sensitive unit test: "duct" picks out one line. */
  lemma OneResult()
    ensures Search("duct", Poem) == ["safe, fast, productive."]
  {
    PoemLines();
    DuctInPoem();
    KeepsMiddleLine(line => Contains(line, "duct"));
  }

  /** The case-insensitive unit test: "DUcT" picks out the same line. */
  lemma CaseInsensitiveResult()
    ensures SearchCaseInsensitive("DUcT", Poem) == ["safe, fast, productive."]
  {
    PoemLines();
    DuctInPoem();
    LowerPoem();
    FirstCharAbsent("rust:", "duct");
    FirstCharAbsent("pick three.", "duct");
    KeepsMiddleLine(line => Contains(Lower(line), "duct"));
  }
}
