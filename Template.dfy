/**
  Command template expansion: `_format_command` and `_generate_commands`.

  The template is rewritten by four replace-all steps in a fixed order, each
  working on the output of the one before; a step whose token is absent does
  nothing. The input file is read only by a step whose token is present, so
  its contents are a parameter here: `None` stands for a read that raises.
 */
module Template {
  import opened Wrappers
  import opened Text

  /** The four recognised placeholders, in the order they are substituted. */
  datatype Placeholder = ArgsPath | PipePath | ArgsContents | PipeContents

  /** Which way the input is handed to the command: as an argument or on stdin. */
  function Channel(p: Placeholder): (c: string)
    ensures |c| == 4 && '{' !in c
  {
    if p.ArgsPath? || p.ArgsContents? then "args" else "pipe"
  }

  /** `:contents` for the placeholders that stand for the file's contents. */
  function Suffix(p: Placeholder): (s: string)
    ensures '{' !in s && (s == [] || s[0] == ':')
  {
    if p.ArgsContents? || p.PipeContents? then ":contents" else ""
  }

  const InfilePath: string := ":infilepath"

  /** The token: `{args:infilepath}`, `{pipe:infilepath}` and their `:contents` forms. */
  function Token(p: Placeholder): (t: string)
    ensures |t| >= 17 && t[0] == '{' && '{' !in t[1..]
  {
    var body := Channel(p) + InfilePath + Suffix(p) + "}";
    assert '{' !in InfilePath;
    assert ("{" + body)[1..] == body;
    "{" + body
  }

  /** The four tokens spelled out. */
  lemma ArgsPathToken()
    ensures Token(ArgsPath) == "{args:infilepath}"
  {
    Spelled("args", "", "{args:infilepath}");
  }

  lemma PipePathToken()
    ensures Token(PipePath) == "{pipe:infilepath}"
  {
    Spelled("pipe", "", "{pipe:infilepath}");
  }

  lemma ArgsContentsToken()
    ensures Token(ArgsContents) == "{args:infilepath:contents}"
  {
    Spelled("args", ":contents", "{args:infilepath:contents}");
  }

  lemma PipeContentsToken()
    ensures Token(PipeContents) == "{pipe:infilepath:contents}"
  {
    Spelled("pipe", ":contents", "{pipe:infilepath:contents}");
  }

  /** The token with the given channel and suffix reads `lit`, for each of the four tokens. */
  lemma Spelled(channel: string, suffix: string, lit: string)
    requires channel == "args" || channel == "pipe"
    requires suffix == "" || suffix == ":contents"
    requires lit == "{" + channel + InfilePath + suffix + "}"
    ensures forall p :: Channel(p) == channel && Suffix(p) == suffix ==> Token(p) == lit
  {
  }

  /** Position of a placeholder's step in `_format_command`. */
  function Rank(p: Placeholder): nat {
    match p
    case ArgsPath => 0
    case PipePath => 1
    case ArgsContents => 2
    case PipeContents => 3
  }

  /** What a placeholder becomes: the path or the contents, bare or after `< `. */
  function Resolve(p: Placeholder, path: string, contents: string): string {
    match p
    case ArgsPath => path
    case PipePath => "< " + path
    case ArgsContents => contents
    case PipeContents => "< " + contents
  }

  /** The token's channel decides the `< ` prefix, and its suffix decides path or contents. */
  lemma ResolveByParts(p: Placeholder, path: string, contents: string)
    ensures Resolve(p, path, contents)
         == (if Channel(p) == "pipe" then "< " else "") + (if Suffix(p) == "" then path else contents)
  {
    assert "args" != "pipe" by { assert "args"[0] != "pipe"[0]; }
    assert ":contents" != "";
  }

  /** Reading the input file raised (the exception leaves `_format_command`). */
  datatype ReadError = Unreadable(path: string)

  /**
    `if token in EXECUTE: EXECUTE = EXECUTE.replace(token, replacement)`.
    The guard changes nothing: replacing an absent token is the identity.
   */
  function Substitute(s: string, p: Placeholder, replacement: string): (r: string)
    ensures r == ReplaceAll(s, Token(p), replacement)
    ensures !Contains(s, Token(p)) ==> r == s
  {
    if Contains(s, Token(p)) then ReplaceAll(s, Token(p), replacement) else s
  }

  /** A step that needs the file contents: the file is read only when the token is present. */
  function SubstituteContents(s: string, p: Placeholder, path: string, contents: Option<string>): (r: Result<string, ReadError>)
    ensures r.Err? <==> contents.None? && Contains(s, Token(p))
    ensures r.Err? ==> r.error == Unreadable(path)
    ensures contents.Some? ==> r == Ok(ReplaceAll(s, Token(p), Resolve(p, path, contents.value)))
    ensures contents.None? && !Contains(s, Token(p)) ==> r == Ok(s)
  {
    if !Contains(s, Token(p)) then Ok(s)
    else if contents.None? then Err(Unreadable(path))
    else Ok(ReplaceAll(s, Token(p), Resolve(p, path, contents.value)))
  }

  /**
    `_format_command(EXECUTE, infilepath)`. With readable contents the result
    is the composition of the four unguarded replace-all steps; the only
    failure is an unreadable file.
   */
  function FormatCommand(execute: string, path: string, contents: Option<string>): (r: Result<string, ReadError>)
    ensures contents.Some? ==>
      r == Ok(ReplaceAll(ReplaceAll(ReplaceAll(ReplaceAll(execute,
             Token(ArgsPath), path),
             Token(PipePath), "< " + path),
             Token(ArgsContents), contents.value),
             Token(PipeContents), "< " + contents.value))
    ensures r.Err? ==> contents.None? && r.error == Unreadable(path)
  {
    var s1 := Substitute(execute, ArgsPath, path);
    var s2 := Substitute(s1, PipePath, "< " + path);
    match SubstituteContents(s2, ArgsContents, path, contents)
    case Err(e) => Err(e)
    case Ok(s3) => SubstituteContents(s3, PipeContents, path, contents)
  }

  /**
    With an unreadable file the command fails exactly when a contents token
    is still present after the two path steps; otherwise the path steps alone
    give the command.
   */
  lemma UnreadableFailsIff(execute: string, path: string)
    ensures var s2 := Substitute(Substitute(execute, ArgsPath, path), PipePath, "< " + path);
      FormatCommand(execute, path, None)
        == if Contains(s2, Token(ArgsContents)) || Contains(s2, Token(PipeContents))
           then Err(Unreadable(path)) else Ok(s2)
  {
  }

  /** `_generate_commands`: with foreach disabled, exactly one command per test input. */
  function GenerateCommands(execute: string, path: string, contents: Option<string>): (r: seq<Result<string, ReadError>>)
    ensures r == [FormatCommand(execute, path, contents)]
    ensures contents.Some? ==> r[0].Ok?
  {
    [FormatCommand(execute, path, contents)]
  }

  /** A template with none of the four tokens is the command itself, whatever the input. */
  lemma NoPlaceholderUnchanged(execute: string, path: string, contents: Option<string>)
    requires forall p :: !Contains(execute, Token(p))
    ensures FormatCommand(execute, path, contents) == Ok(execute)
  {
    assert !Contains(execute, Token(ArgsContents));
    assert !Contains(execute, Token(PipeContents));
  }

  // ---------------------------------------------------------------------
  // A reference expansion over a parsed template: literal text and holes.
  // ---------------------------------------------------------------------

  datatype Piece = Lit(text: string) | Hole(p: Placeholder)

  /** The template text a list of pieces spells. */
  function Render(t: seq<Piece>): string {
    if t == [] then []
    else (match t[0] case Lit(s) => s case Hole(p) => Token(p)) + Render(t[1..])
  }

  /** Every hole replaced by its resolution, every literal kept. */
  function Expand(t: seq<Piece>, path: string, contents: string): string {
    if t == [] then []
    else (match t[0] case Lit(s) => s case Hole(p) => Resolve(p, path, contents)) + Expand(t[1..], path, contents)
  }

  /**
    No `{` in the literals, the path or the contents: then no token can be
    formed other than by a hole, and no substituted text is substituted again.
   */
  predicate Clean(t: seq<Piece>, path: string, contents: string) {
    && (forall i :: 0 <= i < |t| && t[i].Lit? ==> '{' !in t[i].text)
    && '{' !in path
    && '{' !in contents
  }

  /** The text after the first `k` steps: holes of rank below `k` are resolved. */
  function PieceText(x: Piece, k: nat, path: string, contents: string): string {
    match x
    case Lit(s) => s
    case Hole(p) => if Rank(p) < k then Resolve(p, path, contents) else Token(p)
  }

  function Staged(t: seq<Piece>, k: nat, path: string, contents: string): string {
    if t == [] then [] else PieceText(t[0], k, path, contents) + Staged(t[1..], k, path, contents)
  }

  lemma {:induction false} StagedEnds(t: seq<Piece>, path: string, contents: string)
    ensures Staged(t, 0, path, contents) == Render(t)
    ensures Staged(t, 4, path, contents) == Expand(t, path, contents)
  {
    if t != [] {
      StagedEnds(t[1..], path, contents);
    }
  }

  /** Two different tokens disagree at some index within the first 17 characters. */
  lemma TokensDifferAt(p: Placeholder, q: Placeholder) returns (i: nat)
    requires p != q
    ensures i < 17 && Token(p)[i] != Token(q)[i]
  {
    var tp, tq := Token(p), Token(q);
    if Channel(p) != Channel(q) {
      i := 1;
      assert tp[1] == Channel(p)[0] && tq[1] == Channel(q)[0];
    } else {
      i := 16;
      assert |"{" + Channel(p) + InfilePath| == 16;
      assert tp[16] == (Suffix(p) + "}")[0];
      assert tq[16] == (Suffix(q) + "}")[0];
    }
  }

  /** Text that starts with one token does not start with another. */
  lemma TokensDiffer(p: Placeholder, q: Placeholder, rest: string)
    requires p != q
    ensures !StartsWith(Token(p) + rest, Token(q))
  {
    var i := TokensDifferAt(p, q);
    NotStartsWithAt(Token(p), rest, Token(q), i);
  }

  /** Another placeholder's token is not touched by a step. */
  lemma OtherTokenPassesThrough(p: Placeholder, q: Placeholder, rest: string, rep: string)
    requires p != q
    ensures ReplaceAll(Token(p) + rest, Token(q), rep) == Token(p) + ReplaceAll(rest, Token(q), rep)
  {
    TokensDiffer(p, q, rest);
    ReplaceAllSkipsNonMatch(Token(p), rest, Token(q), rep);
  }

  lemma CleanTail(t: seq<Piece>, path: string, contents: string)
    requires t != [] && Clean(t, path, contents)
    ensures Clean(t[1..], path, contents)
  {
    forall i | 0 <= i < |t[1..]| && t[1..][i].Lit? ensures '{' !in t[1..][i].text {
      assert t[1..][i] == t[i + 1];
    }
  }

  /** The step of `p` on one piece followed by any text. */
  lemma PieceStep(x: Piece, p: Placeholder, rest: string, path: string, contents: string)
    requires (x.Lit? ==> '{' !in x.text) && '{' !in path && '{' !in contents
    ensures ReplaceAll(PieceText(x, Rank(p), path, contents) + rest, Token(p), Resolve(p, path, contents))
         == PieceText(x, Rank(p) + 1, path, contents) + ReplaceAll(rest, Token(p), Resolve(p, path, contents))
  {
    var pat, rep := Token(p), Resolve(p, path, contents);
    match x
    case Lit(s) =>
      ReplaceAllSkipsPrefix(s, rest, pat, rep);
    case Hole(q) =>
      if Rank(q) < Rank(p) {
        assert '{' !in Resolve(q, path, contents);
        ReplaceAllSkipsPrefix(Resolve(q, path, contents), rest, pat, rep);
      } else if q == p {
        ReplaceAllAtFront(rest, pat, rep);
      } else {
        OtherTokenPassesThrough(q, p, rest, rep);
      }
  }

  /** The step of `p` resolves exactly the holes of `p`. */
  lemma {:induction false} StepResolves(t: seq<Piece>, p: Placeholder, path: string, contents: string)
    requires Clean(t, path, contents)
    ensures ReplaceAll(Staged(t, Rank(p), path, contents), Token(p), Resolve(p, path, contents))
         == Staged(t, Rank(p) + 1, path, contents)
  {
    if t != [] {
      CleanTail(t, path, contents);
      StepResolves(t[1..], p, path, contents);
      PieceStep(t[0], p, Staged(t[1..], Rank(p), path, contents), path, contents);
    }
  }

  /**
    No token occurs inside another: in particular the path steps leave the
    contents tokens intact.
   */
  lemma TokenNotInOtherToken(p: Placeholder, q: Placeholder)
    requires p != q
    ensures !Contains(Token(q), Token(p))
  {
    assert !Contains([], Token(p));
    OtherTokenKeepsAbsent(q, p, []);
    assert Token(q) + [] == Token(q);
  }

  /** A token at the front is found. */
  lemma TokenAtFrontContained(p: Placeholder, rest: string)
    ensures Contains(Token(p) + rest, Token(p))
  {
    var s := Token(p) + rest;
    assert s[..|Token(p)|] == Token(p);
    assert StartsWith(s, Token(p));
  }

  /** Another placeholder's token at the front does not create an occurrence. */
  lemma OtherTokenKeepsAbsent(p: Placeholder, q: Placeholder, rest: string)
    requires p != q && !Contains(rest, Token(q))
    ensures !Contains(Token(p) + rest, Token(q))
  {
    TokensDiffer(p, q, rest);
    NotContainsAfterNonMatch(Token(p), rest, Token(q));
  }

  /** After `k` steps, a later token is present exactly when the template has its hole. */
  lemma {:induction false} StagedContains(t: seq<Piece>, k: nat, path: string, contents: string, q: Placeholder)
    requires Clean(t, path, contents) && Rank(q) >= k
    ensures Contains(Staged(t, k, path, contents), Token(q)) <==> Hole(q) in t
  {
    var pat := Token(q);
    if t == [] {
      assert !Contains([], pat);
    } else {
      CleanTail(t, path, contents);
      StagedContains(t[1..], k, path, contents, q);
      var rest := Staged(t[1..], k, path, contents);
      var x := PieceText(t[0], k, path, contents);
      assert Staged(t, k, path, contents) == x + rest;
      assert Hole(q) in t <==> t[0] == Hole(q) || Hole(q) in t[1..];
      if t[0] == Hole(q) {
        TokenAtFrontContained(q, rest);
      } else if Hole(q) in t[1..] {
        ContainsAfterPrefix(x, rest, pat);
      } else if t[0].Lit? || Rank(t[0].p) < k {
        assert '{' !in x;
        NotContainsAfterClean(x, rest, pat);
      } else {
        OtherTokenKeepsAbsent(t[0].p, q, rest);
      }
    }
  }

  /**
    `_format_command` agrees with the reference expansion of a clean
    template: every hole becomes its resolution and every literal is kept;
    when the file cannot be read, expansion fails exactly when the template
    has a contents placeholder.
   */
  lemma FormatCommandExpands(t: seq<Piece>, path: string, contents: Option<string>)
    requires Clean(t, path, contents.GetOr(""))
    ensures FormatCommand(Render(t), path, contents)
         == if contents.None? && (Hole(ArgsContents) in t || Hole(PipeContents) in t)
            then Err(Unreadable(path))
            else Ok(Expand(t, path, contents.GetOr("")))
  {
    if contents.Some? {
      ExpandsReadable(t, path, contents.value);
    } else {
      ExpandsUnreadable(t, path);
    }
  }

  /** With readable contents every hole is resolved. */
  lemma ExpandsReadable(t: seq<Piece>, path: string, c: string)
    requires Clean(t, path, c)
    ensures FormatCommand(Render(t), path, Some(c)) == Ok(Expand(t, path, c))
  {
    PathStepsResolve(t, path, c);
    ContentsStepsResolve(t, path, c);
    StagedEnds(t, path, c);
  }

  /** With an unreadable file, expansion fails exactly when a contents hole is present. */
  lemma ExpandsUnreadable(t: seq<Piece>, path: string)
    requires Clean(t, path, "")
    ensures FormatCommand(Render(t), path, None)
         == if Hole(ArgsContents) in t || Hole(PipeContents) in t then Err(Unreadable(path))
            else Ok(Expand(t, path, ""))
  {
    var s2 := Staged(t, 2, path, "");
    PathStepsResolve(t, path, "");
    UnreadableFailsIff(Render(t), path);
    StagedContains(t, 2, path, "", ArgsContents);
    StagedContains(t, 2, path, "", PipeContents);
    if !(Hole(ArgsContents) in t || Hole(PipeContents) in t) {
      NoContentsHoles(t, path, "");
      StagedEnds(t, path, "");
    }
  }

  /** Without contents holes the contents steps change nothing. */
  lemma {:induction false} NoContentsHoles(t: seq<Piece>, path: string, c: string)
    requires Hole(ArgsContents) !in t && Hole(PipeContents) !in t
    ensures Staged(t, 4, path, c) == Staged(t, 2, path, c)
  {
    if t != [] {
      assert t[0] in t && forall x :: x in t[1..] ==> x in t;
      NoContentsHoles(t[1..], path, c);
      assert PieceText(t[0], 4, path, c) == PieceText(t[0], 2, path, c) by {
        if t[0].Hole? {
          assert Rank(t[0].p) < 2;
        }
      }
    }
  }

  /** The two contents steps take the template from stage 2 to stage 4. */
  lemma ContentsStepsResolve(t: seq<Piece>, path: string, c: string)
    requires Clean(t, path, c)
    ensures SubstituteContents(Staged(t, 2, path, c), ArgsContents, path, Some(c)) == Ok(Staged(t, 3, path, c))
    ensures SubstituteContents(Staged(t, 3, path, c), PipeContents, path, Some(c)) == Ok(Staged(t, 4, path, c))
  {
    StepResolves(t, ArgsContents, path, c);
    StepResolves(t, PipeContents, path, c);
  }

  /** The two path steps leave the template at stage 2. */
  lemma PathStepsResolve(t: seq<Piece>, path: string, c: string)
    requires Clean(t, path, c)
    ensures Substitute(Substitute(Render(t), ArgsPath, path), PipePath, "< " + path) == Staged(t, 2, path, c)
  {
    var s1 := Substitute(Render(t), ArgsPath, path);
    assert s1 == Staged(t, 1, path, c) by {
      StagedEnds(t, path, c);
      StepResolves(t, ArgsPath, path, c);
    }
    StepResolves(t, PipePath, path, c);
  }

  /** A single placeholder between clean text is replaced by exactly its resolution. */
  lemma PlaceholderEmbedsExactly(pre: string, p: Placeholder, post: string, path: string, contents: string)
    requires '{' !in pre && '{' !in post && '{' !in path && '{' !in contents
    ensures FormatCommand(pre + Token(p) + post, path, Some(contents)) == Ok(pre + Resolve(p, path, contents) + post)
  {
    var t := [Lit(pre), Hole(p), Lit(post)];
    ThreePieces(pre, p, post, path, contents);
    FormatCommandExpands(t, path, Some(contents));
  }

  lemma ThreePieces(pre: string, p: Placeholder, post: string, path: string, contents: string)
    requires '{' !in pre && '{' !in post && '{' !in path && '{' !in contents
    ensures Render([Lit(pre), Hole(p), Lit(post)]) == pre + Token(p) + post
    ensures Expand([Lit(pre), Hole(p), Lit(post)], path, contents) == pre + Resolve(p, path, contents) + post
    ensures Clean([Lit(pre), Hole(p), Lit(post)], path, contents)
  {
    var t := [Lit(pre), Hole(p), Lit(post)];
    assert t[1..] == [Hole(p), Lit(post)];
    assert t[1..][1..] == [Lit(post)];
    assert t[1..][1..][1..] == [];
    assert Render(t[1..][1..]) == post;
    assert Expand(t[1..][1..], path, contents) == post;
  }

  /** A lone token after clean text is replaced by the step of its placeholder. */
  lemma TokenAfterClean(pre: string, p: Placeholder, rep: string)
    requires '{' !in pre
    ensures Substitute(pre + Token(p), p, rep) == pre + rep
  {
    var tp := Token(p);
    ReplaceAllSkipsPrefix(pre, tp, tp, rep);
    ReplaceAllAtFront([], tp, rep);
    assert tp + [] == tp && rep + [] == rep;
  }

  /** Neither contents token occurs in clean text followed by a path token. */
  lemma NoContentsTokenAfterClean(pre: string, p: Placeholder)
    requires '{' !in pre && !p.ArgsContents? && !p.PipeContents?
    ensures !Contains(pre + Token(p), Token(ArgsContents))
    ensures !Contains(pre + Token(p), Token(PipeContents))
  {
    NotContainsAfterClean(pre, Token(p), Token(ArgsContents));
    NotContainsAfterClean(pre, Token(p), Token(PipeContents));
  }

  /**
    Substitution is not hygienic: a path that itself spells a later token is
    rewritten again by that token's step.
   */
  lemma PathIsSubstitutedAgain()
    ensures FormatCommand("cat " + Token(ArgsPath), Token(PipePath), None)
         == Ok("cat < " + Token(PipePath))
  {
    var t2 := Token(PipePath);
    TokenAfterClean("cat ", ArgsPath, t2);
    TokenAfterClean("cat ", PipePath, "< " + t2);
    assert "cat " + ("< " + t2) == "cat < " + t2;
    NoContentsTokenAfterClean("cat < ", PipePath);
  }
}
