/** `EVal`: looking a dotted key up in a parsed YAML document, with
    `${NAME}` / `${NAME:DEFAULT}` interpolation against the environment. */
module Val {
  import opened Entry
  import opened Safe
  import opened Text
  import opened Split
  import opened Unwrap
  import opened Fork
  import opened Env
  import opened Contains
  import opened Yaml

  /** The file `new EVal(key)` reads. */
  const DefaultPath := "src/main/resources/application.yaml"

  /** The message of a lookup that finds nothing. */
  function AttributeNull(key: string): string
  {
    "Attribute for key '" + key + "' is null"
  }

  /** The message of a lookup whose document cannot be obtained. */
  function ReadFailure(key: string): string
  {
    "Failed to read yaml mapping for key: '" + key + "'"
  }

  // ---------------------------------------------------------------------
  // Interpolation of a terminal scalar (`ejected`, `selectedEnv`, `joined`)
  // ---------------------------------------------------------------------

  /** The first fork's condition: the scalar is a `${...}` placeholder. */
  predicate IsPlaceholder(scalar: string)
  {
    StartsWith(scalar, "${") && EndsWith(scalar, "}")
  }

  /** The second fork's condition: the whole scalar splits on `:` into at
      least two tokens. */
  function HasColonTokens(scalar: string): Result<bool>
  {
    match ESplit(Value(scalar), ":")
    case Ok(tokens) => Ok(|tokens| >= 2)
    case Err(e) => Err(e)
  }

  /** The tokens of the text inside the placeholder, split on `:`. */
  function InnerTokens(scalar: string): Result<seq<string>>
  {
    ESplit(AsOutcome(EUnwrap(scalar, "${", "}")), ":")
  }

  /** `selectedEnv(scalar).trim()`: the first inner token, trimmed. An inner
      text made only of colons splits into no tokens at all, and `get(0)`
      then throws an IndexOutOfBoundsException, which no catch block handles. */
  function EnvName(scalar: string): (r: Outcome<string>)
    ensures EUnwrap(scalar, "${", "}").Err? ==> r == Thrown(EUnwrap(scalar, "${", "}").error)
    ensures EUnwrap(scalar, "${", "}").Ok? ==>
      var x := EUnwrap(scalar, "${", "}").value;
      && (IndexOf(x, ":") == -1 ==> r == Value(Trim(x)))
      && (IndexOf(x, ":") != -1 && r.Value? ==> r.value == Trim(x[..IndexOf(x, ":")]))
      && (IndexOf(x, ":") > 0 ==> r.Value?)
      && (r.Thrown? <==> ColonsOnlyText(x))
    ensures r.Thrown? && EUnwrap(scalar, "${", "}").Ok? ==> r == Thrown(Unchecked(IndexOutOfBounds))
    ensures r.Value? || r.Thrown?
  {
    TokensOfInner(scalar);
    match InnerTokens(scalar)
    case Err(e) => Thrown(e)
    case Ok(tokens) =>
      if |tokens| == 0 then Thrown(Unchecked(IndexOutOfBounds)) else Value(Trim(tokens[0]))
  }

  /** A non-empty text made only of `:`. */
  predicate ColonsOnlyText(x: string)
  {
    x != [] && forall i :: 0 <= i < |x| ==> x[i] == ':'
  }

  /** The inner tokens are the split of the unwrapped text: its first token
      is the text before its first `:`, and there is none exactly when the
      text is made only of `:`. */
  lemma TokensOfInner(scalar: string)
    ensures var u := EUnwrap(scalar, "${", "}");
      && (u.Err? ==> InnerTokens(scalar) == Err(u.error))
      && (u.Ok? ==>
        var x, t := u.value, SplitText(u.value, ":");
        && InnerTokens(scalar) == Ok(t)
        && (IndexOf(x, ":") == -1 ==> t == [x])
        && (IndexOf(x, ":") != -1 && t != [] ==> t[0] == x[..IndexOf(x, ":")])
        && (IndexOf(x, ":") > 0 ==> t != [])
        && (t == [] <==> ColonsOnlyText(x)))
  {
    var u := EUnwrap(scalar, "${", "}");
    if u.Ok? {
      FirstToken(u.value, ":");
      SplitEmpty(u.value, ':');
    }
  }

  /** Every token after the first, separated by `:`. */
  function JoinTail(tokens: seq<string>): string
  {
    if |tokens| <= 1 then "" else Join(tokens[1..], ":")
  }

  /** What `joined(scalar)` computes: the default part of `${NAME:DEFAULT}`. */
  function JoinedOf(scalar: string): Result<string>
  {
    match InnerTokens(scalar)
    case Ok(tokens) => Ok(JoinTail(tokens))
    case Err(e) => Err(e)
  }

  /** `joined(scalar)`: the inner tokens of the placeholder, rejoined from
      index 1 on. */
  method Joined(scalar: string) returns (r: Result<string>)
    ensures r == JoinedOf(scalar)
  {
    var parts := InnerTokens(scalar);
    if parts.Err? {
      return Err(parts.error);
    }
    var value := AppendTail(parts.value);
    r := Ok(value);
  }

  /** The loop of `joined`: appends the tokens from index 1 on, with a `:`
      after each one but the last. */
  method AppendTail(split: seq<string>) returns (value: string)
    ensures value == JoinTail(split)
  {
    value := "";
    var index := 1;
    while index < |split|
      invariant 1 <= index && (index <= |split| || index == 1)
      invariant index < |split| ==> value == JoinedSoFar(split, index)
      invariant index >= |split| ==> value == JoinTail(split)
    {
      JoinedStep(split, index);
      value := value + split[index];
      if index < |split| - 1 {
        value := value + ":";
      }
      index := index + 1;
    }
  }

  /** What `joined` has appended before visiting token `index`: tokens 1 to
      `index - 1`, each followed by a `:`. */
  function JoinedSoFar(split: seq<string>, index: nat): string
    requires 1 <= index <= |split|
  {
    if index == 1 then "" else Join(split[1..index], ":") + ":"
  }

  /** One iteration of the loop of `joined`: appending token `index`, and a
      `:` unless it is the last, either leaves text that still ends with `:`
      or completes the rejoined tail. */
  lemma JoinedStep(split: seq<string>, index: nat)
    requires 1 <= index < |split|
    ensures index < |split| - 1 ==> JoinedSoFar(split, index) + split[index] + ":" == JoinedSoFar(split, index + 1)
    ensures index == |split| - 1 ==> JoinedSoFar(split, index) + split[index] == JoinTail(split)
  {
    if index > 1 {
      JoinSnoc(split[1..index], split[index], ":");
      assert split[1..index] + [split[index]] == split[1..index + 1];
    } else {
      assert split[1..2] == [split[1]];
    }
    assert split[1..|split|] == split[1..];
  }

  /** `ejected(node)`: a scalar that is not a placeholder is returned as it
      is. A placeholder with no `:` anywhere names an environment variable by
      its untrimmed inner text. Otherwise the trimmed first inner token names
      the variable, and when it is unset the remaining tokens rejoined with
      `:` are the default. */
  function Ejected(scalar: string, env: Environment): (r: Outcome<string>)
    ensures !IsPlaceholder(scalar) ==> r == Value(scalar)
    ensures !r.NullPointer?
    ensures r.Thrown? ==> r.error == Unchecked(IndexOutOfBounds)
    ensures r.Thrown? <==> IsPlaceholder(scalar) && HasColonTokens(scalar) == Ok(true) && InnerTokens(scalar) == Ok([])
  {
    PlaceholderUnwraps(scalar);
    TokensOfInner(scalar);
    var name := EnvName(scalar);
    var colon := HasColonTokens(scalar);
    var joined := AsOutcome(JoinedOf(scalar));
    var whole := AsOutcome(EUnwrap(scalar, "${", "}"));
    assert IsPlaceholder(scalar) ==> (name.Thrown? <==> InnerTokens(scalar) == Ok([]));
    ForkOutcomes(IsPlaceholder(scalar), colon, name, joined, whole, Value(scalar), env);
    EFork(
      Ok(IsPlaceholder(scalar)),
      EFork(
        colon,
        EFork(EContains(EEnv(name, env)), EEnv(name, env), joined),
        EEnv(whole, env)),
      Value(scalar))
  }

  /** The forks of `ejected`, over any branch outcomes: once a placeholder's
      conditions cannot fail and its fallbacks are values, the result throws
      exactly when both conditions hold and the variable name throws, and it
      is never a NullPointerException. */
  lemma ForkOutcomes(placeholder: bool, colon: Result<bool>, name: Outcome<string>, joined: Outcome<string>,
                     whole: Outcome<string>, verbatim: Outcome<string>, env: Environment)
    requires placeholder ==> colon.Ok? && joined.Value? && whole.Value?
    requires name.Value? || name.Thrown?
    requires placeholder && name.Thrown? ==> name.error.Unchecked?
    requires verbatim.Value?
    ensures var r := EFork(Ok(placeholder), EFork(colon, EFork(EContains(EEnv(name, env)), EEnv(name, env), joined), EEnv(whole, env)), verbatim);
      && (!placeholder ==> r == verbatim)
      && !r.NullPointer?
      && (r.Thrown? ==> r == name)
      && (r.Thrown? <==> placeholder && colon == Ok(true) && name.Thrown?)
  {
  }

  /** A placeholder always unwraps, and its inner text starts just after
      the leading `${`: the closing `}` comes after it. */
  lemma PlaceholderUnwraps(scalar: string)
    ensures IsPlaceholder(scalar) ==> EUnwrap(scalar, "${", "}").Ok? && UnwrapStart(scalar, "${") == 2
  {
    if IsPlaceholder(scalar) {
      assert MatchAt(scalar, "${", 0);
      FirstMatch(scalar, "${", 0, 0);
      assert scalar[1] == '{';
      assert |scalar| >= 3;
      assert MatchAt(scalar, "}", |scalar| - 1);
    }
  }

  /** The only exception interpolation raises is that of a placeholder whose
      inner text is made only of `:`. */
  lemma EjectedThrows(scalar: string, env: Environment)
    ensures Ejected(scalar, env).Thrown?
        <==> IsPlaceholder(scalar) && EUnwrap(scalar, "${", "}").Ok? && ColonsOnlyText(EUnwrap(scalar, "${", "}").value)
  {
    PlaceholderUnwraps(scalar);
    TokensOfInner(scalar);
    if IsPlaceholder(scalar) && EUnwrap(scalar, "${", "}").Ok? && ColonsOnlyText(EUnwrap(scalar, "${", "}").value) {
      InnerColon(scalar);
      PlaceholderColons(scalar);
    }
  }

  /** The inner text of a placeholder starts at index 2, so a `:` at its
      start stands at index 2 of the scalar. */
  lemma InnerColon(scalar: string)
    requires IsPlaceholder(scalar) && EUnwrap(scalar, "${", "}").Ok? && ColonsOnlyText(EUnwrap(scalar, "${", "}").value)
    ensures MatchAt(scalar, ":", 2)
  {
    PlaceholderUnwraps(scalar);
    var x := EUnwrap(scalar, "${", "}").value;
    assert x == scalar[2..2 + |x|];
    assert scalar[2] == x[0];
  }

  /** A placeholder holding a `:` splits, as a whole scalar, into at least two
      tokens: its last piece holds the closing `}`. */
  lemma PlaceholderColons(scalar: string)
    requires IsPlaceholder(scalar) && MatchAt(scalar, ":", 2)
    ensures HasColonTokens(scalar) == Ok(true)
  {
    assert IndexOf(scalar, ":") != -1;
    assert scalar[|scalar| - 1] == '}';
    assert !EndsWith(scalar, ":");
    LastPieceKept(scalar, ":");
    StripNothing(Pieces(scalar, ":"));
    PiecesStep(scalar, ":");
  }

  /** `${NAME}` with no `:` reads the variable named by the untrimmed inner
      text; an unset variable yields `null`. */
  lemma EjectedEnvOnly(x: string, env: Environment)
    requires ':' !in x && '}' !in x
    ensures Ejected("${" + x + "}", env) == if x in env then Value(env[x]) else NullValue
  {
    var s := "${" + x + "}";
    assert ':' !in s;
    NoColonTokens(s);
    PlaceholderRoundTrip(x);
    assert IsPlaceholder(s);
    assert Ejected(s, env) == EEnv(Value(x), env);
  }

  /** A scalar without `:` is a single token. */
  lemma NoColonTokens(s: string)
    requires ':' !in s
    ensures HasColonTokens(s) == Ok(false)
  {
    CharAbsent(s, ':');
    assert SplitText(s, ":") == [s];
  }

  /** A placeholder with a `:` after a colon-free start splits, as a whole
      scalar, into at least two tokens. */
  lemma ColonTokens(n: string, tail: string)
    requires ':' !in n && tail != "" && tail[|tail| - 1] == '}'
    ensures HasColonTokens("${" + n + ":" + tail) == Ok(true)
  {
    var s := "${" + n + ":" + tail;
    assert s == ("${" + n) + [':'] + tail;
    assert ':' !in "${" + n;
    SplitAtFirst("${" + n, ':', tail);
  }

  /** The inner text `n:rest` of a placeholder gives `n` as its first token
      and `rest` as the rejoined remainder. */
  lemma InnerOfDefault(n: string, rest: string)
    requires ':' !in n && '}' !in n && '}' !in rest && !EndsWith(rest, ":")
    requires n != "" || rest != ""
    ensures var t := InnerTokens("${" + n + ":" + rest + "}");
      t.Ok? && |t.value| >= 1 && t.value[0] == n && JoinTail(t.value) == rest
  {
    var inner := n + ":" + rest;
    assert "${" + n + ":" + rest + "}" == "${" + inner + "}";
    assert '}' !in inner;
    PlaceholderRoundTrip(inner);
    assert inner == n + [':'] + rest;
    SplitAtFirst(n, ':', rest);
  }

  /** `${NAME:DEFAULT}`: the value of the variable named by the trimmed
      `NAME` when it is set, with no trimming of that value; otherwise
      `DEFAULT`, colons included. */
  lemma EjectedWithDefault(n: string, rest: string, env: Environment)
    requires ':' !in n && '}' !in n && '}' !in rest
    requires rest != "" && !EndsWith(rest, ":")
    ensures Ejected("${" + n + ":" + rest + "}", env)
         == if Trim(n) in env then Value(env[Trim(n)]) else Value(rest)
  {
    var s := "${" + n + ":" + rest + "}";
    assert s == "${" + n + ":" + (rest + "}");
    ColonTokens(n, rest + "}");
    InnerOfDefault(n, rest);
    assert IsPlaceholder(s);
    assert EnvName(s) == Value(Trim(n));
    assert JoinedOf(s) == Ok(rest);
  }

  /** `${NAME:}`: the default is empty. */
  lemma EjectedEmptyDefault(n: string, env: Environment)
    requires ':' !in n && '}' !in n && n != ""
    ensures Ejected("${" + n + ":}", env) == if Trim(n) in env then Value(env[Trim(n)]) else Value("")
  {
    var s := "${" + n + ":}";
    assert s == "${" + n + ":" + "}";
    ColonTokens(n, "}");
    InnerOfDefault(n, "");
    assert s == "${" + n + ":" + "" + "}";
    assert IsPlaceholder(s);
    EjectedDefault(s, env, InnerTokens(s).value);
  }

  /** A default may itself contain colons. */
  lemma DefaultWithColons(s: string, env: Environment)
    requires s == "${X:https://h:80}" && "X" !in env
    ensures Ejected(s, env) == Value("https://h:80")
  {
    assert s == "${" + "X" + ":" + "https://h:80" + "}";
    EjectedWithDefault("X", "https://h:80", env);
  }

  /** The default branch over all scalars: when the whole placeholder has
      a `:` and its inner text yields a token 0, the trimmed token 0 names the
      variable, whose value wins untrimmed; otherwise the default is the
      tokens after the first rejoined with `:`. */
  lemma EjectedDefault(s: string, env: Environment, t: seq<string>)
    requires IsPlaceholder(s) && HasColonTokens(s) == Ok(true)
    requires InnerTokens(s) == Ok(t) && |t| >= 1
    ensures Ejected(s, env) == if Trim(t[0]) in env then Value(env[Trim(t[0])]) else Value(JoinTail(t))
  {
    assert EnvName(s) == Value(Trim(t[0]));
    assert JoinedOf(s) == Ok(JoinTail(t));
  }

  /** The text `n:rest:` is the join, with `:`, of `n`, the pieces of `rest`
      and a final empty token, none of which holds a `:`. */
  lemma TrailingColonParts(n: string, rest: string)
    requires ':' !in n
    ensures var xs := [n] + Pieces(rest, ":") + [""];
      && (forall i :: 0 <= i < |xs| ==> ':' !in xs[i])
      && Join(xs, [':']) == n + ":" + rest + ":"
      && Join(Pieces(rest, ":"), ":") == rest
  {
    var p := Pieces(rest, ":");
    var xs := [n] + p + [""];
    PiecesFree(rest, ":");
    forall i | 0 <= i < |xs| ensures ':' !in xs[i] {
      if i > 0 && i - 1 < |p| {
        var q := p[i - 1];
        assert xs[i] == q;
        forall k | 0 <= k < |q| ensures q[k] != ':' {
          MatchAtChar(q, ':', k);
        }
      }
    }
    JoinPieces(rest, ":");
    JoinSnoc([n] + p, "", ":");
    JoinCons(n, p, ":");
  }

  /** The tokens of `n:rest:` are those of `n:rest`: the split drops the
      empty token after the final `:`. */
  lemma {:induction false} TrailingColonTokens(n: string, rest: string)
    requires ':' !in n && rest != "" && !EndsWith(rest, ":")
    ensures var p := Pieces(rest, ":");
      SplitText(n + ":" + rest + ":", ":") == [n] + p && Join(p, ":") == rest
  {
    var p := Pieces(rest, ":");
    var xs := [n] + p + [""];
    TrailingColonParts(n, rest);
    PiecesOfJoin(xs, ':');
    var inner := n + ":" + rest + ":";
    MatchAtChar(inner, ':', |n|);
    assert IndexOf(inner, ":") != -1;
    if p[|p| - 1] == "" {
      LastPieceEmpty(rest, ":");
    }
    assert xs[..|xs| - 1] == [n] + p;
    StripNothing([n] + p);
  }

  /** As written, a default that ends with `:` loses its trailing colon:
      `${NAME:rest:}` yields `rest` when the variable is unset. */
  lemma TrailingColonDropped(n: string, rest: string, env: Environment)
    requires ':' !in n && '}' !in n && '}' !in rest
    requires rest != "" && !EndsWith(rest, ":")
    ensures Ejected("${" + (n + ":" + rest + ":") + "}", env)
         == if Trim(n) in env then Value(env[Trim(n)]) else Value(rest)
  {
    var x := n + ":" + rest + ":";
    var s := "${" + x + "}";
    assert s == "${" + n + ":" + (rest + ":" + "}");
    ColonTokens(n, rest + ":" + "}");
    assert '}' !in x;
    PlaceholderInner(x);
    TrailingColonTokens(n, rest);
    var t := [n] + Pieces(rest, ":");
    assert t[1..] == Pieces(rest, ":");
    EjectedDefault(s, env, t);
  }

  /** `${x}` with no `}` in `x` is a placeholder whose inner tokens are the
      split of `x`. */
  lemma PlaceholderInner(x: string)
    requires '}' !in x
    ensures IsPlaceholder("${" + x + "}")
    ensures InnerTokens("${" + x + "}") == Ok(SplitText(x, ":"))
  {
    var s := "${" + x + "}";
    PlaceholderRoundTrip(x);
    assert s[..2] == "${";
    assert s[|s| - 1..] == "}";
  }

  /** `${X:a:}` with `X` unset yields `a`, not `a:`. */
  lemma TrailingColonExample(s: string, env: Environment)
    requires s == "${X:a:}" && "X" !in env
    ensures Ejected(s, env) == Value("a")
  {
    var n, rest := "X", "a";
    ExampleText(s, n, rest);
    TrailingColonDropped(n, rest, env);
  }

  /** The parts of `${X:a:}`. */
  lemma ExampleText(s: string, n: string, rest: string)
    requires s == "${X:a:}" && n == "X" && rest == "a"
    ensures s == "${" + (n + ":" + rest + ":") + "}"
    ensures !EndsWith(rest, ":") && Trim(n) == n
  {
  }

  /** The default as the placeholder grammar describes it: the inner text
      after its first `:`, verbatim. */
  function DefaultText(scalar: string): Result<string>
  {
    match EUnwrap(scalar, "${", "}")
    case Err(e) => Err(e)
    case Ok(inner) =>
      var i := IndexOf(inner, ":");
      if i == -1 then Ok("") else Ok(inner[i + 1..])
  }

  /** `ejected` with the default taken verbatim. */
  function EjectedIntended(scalar: string, env: Environment): Outcome<string>
  {
    var name := EnvName(scalar);
    EFork(
      Ok(IsPlaceholder(scalar)),
      EFork(
        HasColonTokens(scalar),
        EFork(EContains(EEnv(name, env)), EEnv(name, env), AsOutcome(DefaultText(scalar))),
        EEnv(AsOutcome(EUnwrap(scalar, "${", "}")), env)),
      Value(scalar))
  }

  /** With the default taken verbatim, `${NAME:DEFAULT}` yields `DEFAULT`
      whenever the variable is unset, whatever colons it ends with. */
  lemma IntendedDefault(n: string, rest: string, env: Environment)
    requires ':' !in n && '}' !in n && '}' !in rest && n != ""
    ensures EjectedIntended("${" + (n + ":" + rest) + "}", env)
         == if Trim(n) in env then Value(env[Trim(n)]) else Value(rest)
  {
    var x := n + ":" + rest;
    var s := "${" + x + "}";
    assert s == "${" + n + ":" + (rest + "}");
    ColonTokens(n, rest + "}");
    VerbatimParts(n, rest);
    InnerParts(x);
    IntendedBranch(s, env, Trim(n), rest);
  }

  /** For `${x}` with `x` free of `}`: the name is the trimmed first token of
      `x`, and the verbatim default is what follows the first `:` of `x`. */
  lemma InnerParts(x: string)
    requires '}' !in x && SplitText(x, ":") != [] && IndexOf(x, ":") != -1
    ensures IsPlaceholder("${" + x + "}")
    ensures EnvName("${" + x + "}") == Value(Trim(SplitText(x, ":")[0]))
    ensures DefaultText("${" + x + "}") == Ok(x[IndexOf(x, ":") + 1..])
  {
    PlaceholderInner(x);
    InnerDefault(x);
  }

  /** The verbatim default of `${x}`. */
  lemma InnerDefault(x: string)
    requires '}' !in x && IndexOf(x, ":") != -1
    ensures DefaultText("${" + x + "}") == Ok(x[IndexOf(x, ":") + 1..])
  {
    PlaceholderRoundTrip(x);
  }

  /** The corrected default branch: a set variable wins, else the default. */
  lemma IntendedBranch(s: string, env: Environment, name: string, fallback: string)
    requires IsPlaceholder(s) && HasColonTokens(s) == Ok(true)
    requires EnvName(s) == Value(name) && DefaultText(s) == Ok(fallback)
    ensures EjectedIntended(s, env) == if name in env then Value(env[name]) else Value(fallback)
  {
  }

  /** The inner text `n:rest` of a placeholder: its first token is `n`, and
      what follows its first `:` is `rest`. */
  lemma VerbatimParts(n: string, rest: string)
    requires ':' !in n && n != ""
    ensures var x := n + ":" + rest;
      && IndexOf(x, ":") == |n|
      && x[|n| + 1..] == rest
      && SplitText(x, ":") != [] && SplitText(x, ":")[0] == n
  {
    var x := n + ":" + rest;
    assert x[..|n|] == n;
    assert x[|n| + 1..] == rest;
    FirstChar(x, ':', |n|);
    FirstToken(x, ":");
  }

  /** The corrected default agrees with the written one when the default does
      not end with `:`. */
  lemma IntendedAgreesOnDefault(n: string, rest: string, env: Environment)
    requires ':' !in n && '}' !in n && '}' !in rest && n != ""
    requires rest != "" && !EndsWith(rest, ":")
    ensures EjectedIntended("${" + n + ":" + rest + "}", env) == Ejected("${" + n + ":" + rest + "}", env)
  {
    var s := "${" + n + ":" + rest + "}";
    var v := if Trim(n) in env then Value(env[Trim(n)]) else Value(rest);
    assert s == "${" + (n + ":" + rest) + "}";
    IntendedDefault(n, rest, env);
    assert EjectedIntended(s, env) == v;
    EjectedWithDefault(n, rest, env);
    assert Ejected(s, env) == v;
  }


  /** A placeholder whose inner text splits into no tokens throws when the
      name is taken from token 0. */
  lemma NoInnerTokens(s: string, env: Environment)
    requires IsPlaceholder(s) && HasColonTokens(s) == Ok(true) && InnerTokens(s) == Ok([])
    ensures Ejected(s, env) == Thrown(Unchecked(IndexOutOfBounds))
  {
    assert EnvName(s) == Thrown(Unchecked(IndexOutOfBounds));
  }

  /** `${:}` has no variable name at all: the lookup of token 0 throws. */
  lemma ColonsOnly(s: string, env: Environment)
    requires s == "${:}"
    ensures Ejected(s, env) == Thrown(Unchecked(IndexOutOfBounds))
  {
    assert s == "${" + "" + ":" + "}";
    ColonTokens("", "}");
    assert s == "${" + ":" + "}";
    PlaceholderRoundTrip(":");
    LoneDelimiter(':');
    NoInnerTokens(s, env);
  }

  // ---------------------------------------------------------------------
  // Rendering the terminal node and walking the dotted key
  // ---------------------------------------------------------------------

  predicate AllScalars(items: seq<Node>)
  {
    forall i :: 0 <= i < |items| ==> items[i].Scalar?
  }

  /** The texts of scalar items, in document order. */
  function Texts(items: seq<Node>): (r: seq<string>)
    requires AllScalars(items)
    ensures |r| == |items| && forall i :: 0 <= i < |items| ==> r[i] == items[i].text
  {
    if items == [] then [] else [items[0].text] + Texts(items[1..])
  }

  /** A sequence is rendered as its items' scalar texts joined with `;`,
      without interpolation; an item that is not a scalar makes `asScalar`
      throw. */
  function SequenceText(items: seq<Node>): (r: Outcome<string>)
    ensures r.Value? <==> AllScalars(items)
    ensures !r.Value? ==> r == Thrown(Unchecked(NonScalarItem))
    ensures items == [] ==> r == Value("")
    ensures r.Value? && |items| >= 1 && (forall i :: 0 <= i < |items| ==> ';' !in items[i].text)
         && (|items| == 1 || items[|items| - 1].text != "")
         ==> SplitText(r.value, ";") == Texts(items)
  {
    if AllScalars(items) then
      var texts := Texts(items);
      if |items| >= 1 && (forall i :: 0 <= i < |items| ==> ';' !in items[i].text)
         && (|items| == 1 || items[|items| - 1].text != "") then
        SplitOfJoin(texts, ';');
        Value(Join(texts, ";"))
      else Value(Join(texts, ";"))
    else Thrown(Unchecked(NonScalarItem))
  }

  /** The last loop iteration: `root.value(segment)` and its rendering. An
      absent key or a YAML `null` gives a `null` node whose `type()` throws a
      NullPointerException; a mapping leaves `res` as `null`. */
  function Terminal(m: Mapping, segment: string, env: Environment): (r: Outcome<string>)
    ensures r.NullPointer? <==> segment !in m || m[segment].Null?
    ensures r.NullValue? <==> segment in m && (m[segment].Map? || (m[segment].Scalar? && Ejected(m[segment].text, env).NullValue?))
    ensures segment in m && m[segment].Scalar? && !IsPlaceholder(m[segment].text) ==> r == Value(m[segment].text)
    ensures r.Thrown? ==> r.error.Unchecked?
  {
    if segment !in m then NullPointer
    else match m[segment]
      case Scalar(text) => Ejected(text, env)
      case Seq(items) => SequenceText(items)
      case Map(_) => NullValue
      case Null => NullPointer
  }

  /** What the traversal loop yields from a current mapping (`null` when
      `None`) and the segments still to visit, starting with `res == null`. */
  function Descend(root: Option<Mapping>, segments: seq<string>, env: Environment): Outcome<string>
    decreases |segments|
  {
    if segments == [] then NullValue
    else if root.None? then NullPointer
    else if |segments| == 1 then Terminal(root.value, segments[0], env)
    else Descend(ChildMapping(root.value, segments[0]), segments[1..], env)
  }

  /** The mapping reached from `m` by following `path`, one nested mapping
      per segment; `None` as soon as a segment does not name a mapping. */
  function Reach(m: Mapping, path: seq<string>): Option<Mapping>
    decreases |path|
  {
    if path == [] then Some(m)
    else match ChildMapping(m, path[0])
      case None => None
      case Some(child) => Reach(child, path[1..])
  }

  /** `new EVal(key, content).value()`. `content` is the outcome of reading
      and parsing the document: a read or parse failure (an EntryException or
      an IOException) is reported under the key, and a `null` content text
      makes the parser throw a NullPointerException. */
  function EVal(key: string, content: Outcome<Mapping>, env: Environment): (r: Result<string>)
    ensures content.Thrown? && content.error.Failure? ==> r == Err(Failure(ReadFailure(key)))
    ensures content.Thrown? && content.error.Unchecked? ==> r == Err(content.error)
    ensures (content.NullValue? || content.NullPointer?) ==> r == Err(Failure(AttributeNull(key)))
  {
    match content
    case Thrown(Failure(_)) => Err(Failure(ReadFailure(key)))
    case Thrown(e) => Err(e)
    case Value(m) => ESafe(Descend(Some(m), SplitText(key, "."), env), AttributeNull(key))
    case _ => ESafe(NullPointer, AttributeNull(key))
  }

  /** The files `EFile` reads, already parsed: the outcome of reading and
      parsing the file at each path. */
  type FileSystem = string -> Outcome<Mapping>

  function EmptyFile(path: string): string
  {
    "Empty file for path: '" + path + "'"
  }

  /** `new EFile(path)` as the content of a lookup. `EFile` is itself a
      null-checked entry, so it never yields `null`; a `null` path makes
      `Path.of` throw a NullPointerException, which that check turns into a
      failure. */
  function FileAt(fs: FileSystem, path: Option<string>): (c: Outcome<Mapping>)
    ensures path.None? ==> c == Thrown(Failure(EmptyFile("null")))
    ensures path.Some? && fs(path.value).Value? ==> c == fs(path.value)
    ensures !c.NullValue? && !c.NullPointer?
  {
    match path
    case None => AsOutcome(ESafe(NullPointer, EmptyFile("null")))
    case Some(p) => AsOutcome(ESafe(fs(p), EmptyFile(p)))
  }

  /** `new EVal(key, path).value()`: a missing, unreadable or `null`-path
      file is a read failure reported under the key. */
  function EValAt(key: string, path: Option<string>, fs: FileSystem, env: Environment): (r: Result<string>)
    ensures path.None? ==> r == Err(Failure(ReadFailure(key)))
    ensures path.Some? && fs(path.value).Value? ==> r == EVal(key, fs(path.value), env)
    ensures path.Some? && !fs(path.value).Value? && !(fs(path.value).Thrown? && fs(path.value).error.Unchecked?)
      ==> r == Err(Failure(ReadFailure(key)))
  {
    EVal(key, FileAt(fs, path), env)
  }

  /** `new EVal(key).value()`: the file at the default path. */
  function EValDefault(key: string, fs: FileSystem, env: Environment): (r: Result<string>)
    ensures fs(DefaultPath).Value? ==> r == EVal(key, fs(DefaultPath), env)
  {
    EValAt(key, Some(DefaultPath), fs, env)
  }

  /** `res` as an outcome. */
  function Held(res: Option<string>): Outcome<string>
  {
    if res.Some? then Value(res.value) else NullValue
  }

  /** The constructor lambda of `EVal`, with its traversal loop: on every
      segment but the last it descends into the nested mapping (a `null`
      root throws), on the last it renders the node. */
  method Lookup(key: string, content: Outcome<Mapping>, env: Environment) returns (r: Result<string>)
    ensures r == EVal(key, content, env)
  {
    var message := AttributeNull(key);
    if content.Thrown? {
      if content.error.Failure? {
        return Err(Failure(ReadFailure(key)));
      }
      return Err(content.error);
    }
    if !content.Value? {
      return ESafe(NullPointer, message);
    }
    var elements := SplitText(key, ".");
    var outcome := Walk(elements, content.value, env);
    r := ESafe(outcome, message);
  }

  /** The traversal loop of the `EVal` lambda over the parsed root mapping
      and the segments of the key; the lambda's result before its `null`
      check. */
  method Walk(elements: seq<string>, m: Mapping, env: Environment) returns (outcome: Outcome<string>)
    ensures outcome == Descend(Some(m), elements, env)
  {
    var root: Option<Mapping> := Some(m);
    var res: Option<string> := None;
    var element := 0;
    while element < |elements|
      invariant 0 <= element <= |elements|
      invariant element < |elements| ==> res.None?
      invariant Descend(Some(m), elements, env)
             == if element < |elements| then Descend(root, elements[element..], env) else Held(res)
    {
      if root.None? {
        return NullPointer;
      }
      var segment := elements[element];
      if element == |elements| - 1 {
        var node := Terminal(root.value, segment, env);
        if !(node.Value? || node.NullValue?) {
          return node;
        }
        res := if node.Value? then Some(node.value) else None;
      } else {
        assert elements[element..][1..] == elements[element + 1..];
      }
      root := ChildMapping(root.value, segment);
      element := element + 1;
    }
    outcome := Held(res);
  }

  /** The walk is a path lookup followed by the rendering of the last
      segment in the mapping reached. */
  lemma {:induction false} DescendFlat(m: Mapping, segments: seq<string>, env: Environment)
    requires segments != []
    ensures Descend(Some(m), segments, env)
         == match Reach(m, segments[..|segments| - 1])
            case None => NullPointer
            case Some(p) => Terminal(p, segments[|segments| - 1], env)
    decreases |segments|
  {
    if |segments| > 1 {
      var rest := segments[1..];
      assert segments[..|segments| - 1][1..] == rest[..|rest| - 1];
      assert segments[|segments| - 1] == rest[|rest| - 1];
      match ChildMapping(m, segments[0])
      case None =>
      case Some(child) =>
        DescendFlat(child, rest, env);
    }
  }

  /** Every key, as the traversal splits it: a key made only of dots has no
      segment and finds nothing; otherwise the last segment is rendered in the
      mapping reached through the others. */
  lemma LookupSegments(key: string, m: Mapping, env: Environment)
    ensures var segments := SplitText(key, ".");
      && (segments == [] ==> EVal(key, Value(m), env) == Err(Failure(AttributeNull(key))))
      && (segments != [] ==>
            EVal(key, Value(m), env)
            == match Reach(m, segments[..|segments| - 1])
               case None => Err(Failure(AttributeNull(key)))
               case Some(p) => ESafe(Terminal(p, segments[|segments| - 1], env), AttributeNull(key)))
  {
    var segments := SplitText(key, ".");
    if segments != [] {
      DescendFlat(m, segments, env);
    }
  }

  /** A key ending in `.` is looked up without it: the split drops the empty
      last segment. */
  lemma TrailingDotKey(k: string, m: Mapping, env: Environment)
    requires k != "" && '.' !in k
    ensures SplitText(k + ".", ".") == [k]
    ensures EVal(k + ".", Value(m), env)
         == ESafe(Terminal(m, k, env), AttributeNull(k + "."))
  {
    SplitAtFirst(k, '.', "");
    assert k + "." + "" == k + ".";
    LookupSegments(k + ".", m, env);
  }

  /** A key whose segments hold no `.` (and whose last segment is not empty
      unless it is the only one) splits back into exactly those segments. */
  predicate KeyOf(key: string, segments: seq<string>)
  {
    && |segments| >= 1
    && (forall i :: 0 <= i < |segments| ==> '.' !in segments[i])
    && (|segments| == 1 || segments[|segments| - 1] != "")
    && key == Join(segments, ".")
  }

  /** Looking `a.b.c` up is walking to the mapping at `a.b` and rendering
      `c` there; a missing or non-mapping intermediate node fails with the
      key's message. */
  lemma LookupPath(key: string, segments: seq<string>, m: Mapping, env: Environment)
    requires KeyOf(key, segments)
    ensures EVal(key, Value(m), env)
         == match Reach(m, segments[..|segments| - 1])
            case None => Err(Failure(AttributeNull(key)))
            case Some(p) => ESafe(Terminal(p, segments[|segments| - 1], env), AttributeNull(key))
  {
    SplitOfJoin(segments, '.');
    LookupSegments(key, m, env);
  }

  /** Every way of finding nothing fails with `Attribute for key '<key>' is
      null`: an intermediate node that is not a mapping, an absent key, a YAML
      `null`, or a mapping where a value is expected. */
  lemma LookupNothing(key: string, segments: seq<string>, m: Mapping, env: Environment)
    requires KeyOf(key, segments)
    requires var p, last := Reach(m, segments[..|segments| - 1]), segments[|segments| - 1];
      p.None? || last !in p.value || p.value[last].Null? || p.value[last].Map?
    ensures EVal(key, Value(m), env) == Err(Failure(AttributeNull(key)))
  {
    LookupPath(key, segments, m, env);
  }

  /** A scalar found at the key is interpolated: a scalar that is not a
      placeholder comes back unchanged, and an interpolation that yields
      `null` fails with the key's message. */
  lemma LookupScalar(key: string, segments: seq<string>, m: Mapping, p: Mapping, text: string, env: Environment)
    requires KeyOf(key, segments)
    requires Reach(m, segments[..|segments| - 1]) == Some(p)
    requires segments[|segments| - 1] in p && p[segments[|segments| - 1]] == Scalar(text)
    ensures EVal(key, Value(m), env) == ESafe(Ejected(text, env), AttributeNull(key))
    ensures !IsPlaceholder(text) ==> EVal(key, Value(m), env) == Ok(text)
  {
    LookupPath(key, segments, m, env);
  }

  /** A sequence found at the key gives its scalar texts joined with `;` in
      document order (an empty sequence gives `""`, a success); an item that
      is not a scalar raises the parser's exception. */
  lemma LookupSequence(key: string, segments: seq<string>, m: Mapping, p: Mapping, items: seq<Node>, env: Environment)
    requires KeyOf(key, segments)
    requires Reach(m, segments[..|segments| - 1]) == Some(p)
    requires segments[|segments| - 1] in p && p[segments[|segments| - 1]] == Seq(items)
    ensures AllScalars(items) ==> EVal(key, Value(m), env) == Ok(Join(Texts(items), ";"))
    ensures items == [] ==> EVal(key, Value(m), env) == Ok("")
    ensures !AllScalars(items) ==> EVal(key, Value(m), env) == Err(Unchecked(NonScalarItem))
  {
    LookupPath(key, segments, m, env);
  }

  /** An unset `${NAME}` fails with the key's message. */
  lemma LookupUnsetVariable(key: string, segments: seq<string>, m: Mapping, p: Mapping, x: string, env: Environment)
    requires KeyOf(key, segments)
    requires Reach(m, segments[..|segments| - 1]) == Some(p)
    requires segments[|segments| - 1] in p && p[segments[|segments| - 1]] == Scalar("${" + x + "}")
    requires ':' !in x && '}' !in x && x !in env
    ensures EVal(key, Value(m), env) == Err(Failure(AttributeNull(key)))
  {
    LookupScalar(key, segments, m, p, "${" + x + "}", env);
    EjectedEnvOnly(x, env);
  }

  /** A one-segment key names an entry of the top mapping. */
  lemma SingleSegment(key: string)
    requires '.' !in key
    ensures KeyOf(key, [key])
  {
  }

  /** `person.age` over `person: {age: "123"}`. */
  lemma InnerNodeExample(key: string, m: Mapping, env: Environment)
    requires key == "person.age" && m == map["person" := Map(map["age" := Scalar("123")])]
    ensures EVal(key, Value(m), env) == Ok("123")
  {
    var segments := ["person", "age"];
    assert Join(segments, ".") == key;
    assert segments[..1] == ["person"];
    assert ChildMapping(m, "person") == Some(map["age" := Scalar("123")]);
    LookupScalar(key, segments, m, map["age" := Scalar("123")], "123", env);
  }

  /** `ages: [ 123, 321 ]`. */
  lemma SequenceExample(key: string, m: Mapping, env: Environment)
    requires key == "ages" && m == map["ages" := Seq([Scalar("123"), Scalar("321")])]
    ensures EVal(key, Value(m), env) == Ok("123;321")
  {
    SingleSegment(key);
    var items := [Scalar("123"), Scalar("321")];
    assert Texts(items) == ["123", "321"];
    assert Join(["123", "321"], ";") == "123;321";
    LookupSequence(key, [key], m, m, items, env);
  }

  /** `ages: []`. */
  lemma EmptySequenceExample(key: string, m: Mapping, env: Environment)
    requires key == "ages" && m == map["ages" := Seq([])]
    ensures EVal(key, Value(m), env) == Ok("")
  {
    SingleSegment(key);
    LookupSequence(key, [key], m, m, [], env);
  }

  /** `age: null` and `age2: null`, both looked up as `age`. */
  lemma NullExamples(key: string, m: Mapping, other: Mapping, env: Environment)
    requires key == "age" && m == map["age" := Null] && other == map["age2" := Null]
    ensures EVal(key, Value(m), env) == Err(Failure(AttributeNull(key)))
    ensures EVal(key, Value(other), env) == Err(Failure(AttributeNull(key)))
  {
    SingleSegment(key);
    LookupNothing(key, [key], m, env);
    LookupNothing(key, [key], other, env);
  }
}
