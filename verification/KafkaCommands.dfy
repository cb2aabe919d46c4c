/**
 The kafka-shell grammar of src/kafka-client/commands.ts lines 179-370: flags, the parsers of
 each verb, and `parseCommand` itself.
 */
module KafkaCommands {
  import opened Wrappers
  import opened Text
  import opened KafkaLexer

  datatype Verb =
    | TopicsList | TopicDescribe | TopicCreate | TopicDelete | Produce | Consume
    | GroupsList | GroupDescribe | GroupLag | ClusterInfo

  datatype Command = Command(
    verb: Verb,
    mutation: bool,
    raw: string,
    topic: Option<string>,
    group: Option<string>,
    key: Option<string>,
    value: Option<string>,
    partitions: Option<nat>,
    replication: Option<nat>,
    partition: Option<nat>,
    fromEnd: Option<nat>,
    fromStart: Option<nat>,
    limit: Option<nat>)

  /** What `CommandParseError` is thrown for. */
  datatype ParseError =
    | EmptyCommand
    | Unterminated(quote: char)
    | Usage(verb: Verb)
    | NeedsNumber(flag: string)
    | NotNonNegativeInteger(flag: string)
    | UnknownTopicSubcommand(sub: string)
    | UnknownGroupSubcommand(sub: string)
    | ProduceNeedsValue
    | OnlyOneEnd
    | UnknownCommand(head: string)

  type Parsed = Result<Command, ParseError>

  predicate IsMutation(verb: Verb) {
    verb in {TopicCreate, TopicDelete, Produce}
  }

  function Blank(verb: Verb, raw: string): Command {
    Command(verb, IsMutation(verb), raw, None, None, None, None, None, None, None, None, None, None)
  }

  // ---- flags -----------------------------------------------------------------------

  /** A flag's value: its text, or `true` when it has none. */
  datatype Flag = Text(text: string) | Bare

  datatype Split = Split(positionals: seq<string>, flags: map<string, Flag>)

  predicate IsFlag(token: string) {
    "--" <= token
  }

  /** How many tokens the flag at the head of `tokens` takes, its name and its value. */
  function HeadFlag(tokens: seq<string>): (nat, string, Flag)
    requires tokens != [] && IsFlag(tokens[0])
    ensures 1 <= HeadFlag(tokens).0 <= |tokens|
  {
    var body := tokens[0][2..];
    IndexOfIsFirst(body, '=');
    match IndexOf(body, '=')
    case Some(eq) => (1, body[..eq], Text(body[eq + 1..]))
    case None =>
      if 1 < |tokens| && !IsFlag(tokens[1]) then (2, body, Text(tokens[1])) else (1, body, Bare)
  }

  /** Positionals in order, and for each flag name its last value. */
  function SplitOf(tokens: seq<string>): (r: Split)
    ensures forall p :: p in r.positionals ==> p in tokens && !IsFlag(p)
  {
    if tokens == [] then Split([], map[])
    else if IsFlag(tokens[0]) then
      var (taken, name, flag) := HeadFlag(tokens);
      var rest := SplitOf(tokens[taken..]);
      Split(rest.positionals, map[name := flag] + rest.flags)
    else
      var rest := SplitOf(tokens[1..]);
      Split([tokens[0]] + rest.positionals, rest.flags)
  }

  // ---- what a split holds ----------------------------------------------------------

  /** One argument of a line: a positional, or a flag with its value. */
  datatype Argument = Positional(token: string) | Named(name: string, flag: Flag, tokens: seq<string>)

  function ArgumentTokens(a: Argument): seq<string> {
    match a
    case Positional(token) => [token]
    case Named(_, _, tokens) => tokens
  }

  function TokensOf(arguments: seq<Argument>): seq<string> {
    if arguments == [] then [] else ArgumentTokens(arguments[0]) + TokensOf(arguments[1..])
  }

  /** The arguments of a line, in order. */
  function Arguments(tokens: seq<string>): seq<Argument> {
    if tokens == [] then []
    else if IsFlag(tokens[0]) then
      var (taken, name, flag) := HeadFlag(tokens);
      [Named(name, flag, tokens[..taken])] + Arguments(tokens[taken..])
    else [Positional(tokens[0])] + Arguments(tokens[1..])
  }

  /** A flag is written `--name=value`, `--name value`, or `--name` alone. */
  ghost predicate IsWritten(a: Argument) {
    match a
    case Positional(token) => !IsFlag(token)
    case Named(name, flag, tokens) =>
      || (flag.Text? && '=' !in name && tokens == ["--" + name + "=" + flag.text])
      || (flag.Text? && '=' !in name && !IsFlag(flag.text) && tokens == ["--" + name, flag.text])
      || (flag.Bare? && '=' !in name && tokens == ["--" + name])
  }

  function Positionals(arguments: seq<Argument>): seq<string> {
    if arguments == [] then []
    else (if arguments[0].Positional? then [arguments[0].token] else []) + Positionals(arguments[1..])
  }

  /** The last of the arguments that names a flag, if any does. */
  function LastNamed(arguments: seq<Argument>, name: string): Option<Flag> {
    if arguments == [] then None
    else
      var a := arguments[|arguments| - 1];
      if a.Named? && a.name == name then Some(a.flag) else LastNamed(arguments[..|arguments| - 1], name)
  }

  lemma HeadFlagIsWritten(tokens: seq<string>)
    requires tokens != [] && IsFlag(tokens[0])
    ensures var (taken, name, flag) := HeadFlag(tokens); IsWritten(Named(name, flag, tokens[..taken]))
  {
    var body := tokens[0][2..];
    assert tokens[0] == "--" + body;
    IndexOfIsFirst(body, '=');
    match IndexOf(body, '=')
    case Some(eq) =>
      assert body == body[..eq] + "=" + body[eq + 1..];
      assert tokens[0] == "--" + body[..eq] + "=" + body[eq + 1..];
      assert tokens[..1] == [tokens[0]];
    case None =>
      if 1 < |tokens| && !IsFlag(tokens[1]) {
        assert tokens[..2] == [tokens[0], tokens[1]];
      } else {
        assert tokens[..1] == [tokens[0]];
      }
  }

  lemma TokensCons(a: Argument, rest: seq<Argument>)
    ensures TokensOf([a] + rest) == ArgumentTokens(a) + TokensOf(rest)
  {
    assert ([a] + rest)[1..] == rest;
  }

  /** The arguments make up the line. */
  lemma {:induction false} ArgumentsAreTheLine(tokens: seq<string>)
    ensures TokensOf(Arguments(tokens)) == tokens
  {
    if tokens == [] {
    } else if IsFlag(tokens[0]) {
      var (taken, name, flag) := HeadFlag(tokens);
      ArgumentsAreTheLine(tokens[taken..]);
      TokensCons(Named(name, flag, tokens[..taken]), Arguments(tokens[taken..]));
    } else {
      ArgumentsAreTheLine(tokens[1..]);
      TokensCons(Positional(tokens[0]), Arguments(tokens[1..]));
    }
  }

  /** Each argument is written as its kind is, and what can be a flag's value is. */
  ghost predicate AreWritten(arguments: seq<Argument>) {
    && (forall k :: 0 <= k < |arguments| ==> IsWritten(arguments[k]))
    && (forall k :: 0 < k < |arguments| && arguments[k - 1].Named? && arguments[k - 1].flag.Bare?
          ==> arguments[k].Named?)
  }

  lemma {:induction false} ArgumentsAreWritten(tokens: seq<string>)
    ensures AreWritten(Arguments(tokens))
  {
    if tokens == [] {
    } else if IsFlag(tokens[0]) {
      var (taken, name, flag) := HeadFlag(tokens);
      HeadFlagIsWritten(tokens);
      ArgumentsAreWritten(tokens[taken..]);
    } else {
      ArgumentsAreWritten(tokens[1..]);
    }
  }

  /** A written flag is read from its tokens, whatever follows, unless it is bare and its value could follow. */
  lemma WrittenFlagIsRead(name: string, flag: Flag, tokens: seq<string>, rest: seq<string>)
    requires IsWritten(Named(name, flag, tokens)) && (flag.Bare? ==> rest == [] || IsFlag(rest[0]))
    ensures tokens != [] && IsFlag(tokens[0]) && HeadFlag(tokens + rest) == (|tokens|, name, flag)
  {
    var body := tokens[0][2..];
    IndexOfIsFirst(body, '=');
    if flag.Text? && tokens == ["--" + name + "=" + flag.text] {
      assert body == name + ['='] + flag.text;
      IndexOfAfterPrefix(name, '=', flag.text);
      assert body[..|name|] == name && body[|name| + 1..] == flag.text;
    } else {
      assert body == name;
    }
  }

  lemma AfterBareComesFlag(arguments: seq<Argument>)
    requires arguments != [] && AreWritten(arguments) && arguments[0].Named? && arguments[0].flag.Bare?
    ensures var rest := TokensOf(arguments[1..]); rest == [] || IsFlag(rest[0])
  {
    if |arguments| > 1 {
      var next := arguments[1];
      assert arguments[1 - 1].Named? && IsWritten(next);
      WrittenFlagIsRead(next.name, next.flag, next.tokens, []);
    }
  }

  lemma TailIsWritten(arguments: seq<Argument>)
    requires arguments != [] && AreWritten(arguments)
    ensures IsWritten(arguments[0]) && AreWritten(arguments[1..])
  {
    var rest := arguments[1..];
    forall k | 0 < k < |rest| && rest[k - 1].Named? && rest[k - 1].flag.Bare? ensures rest[k].Named? {
      assert rest[k - 1] == arguments[k + 1 - 1] && rest[k] == arguments[k + 1];
    }
  }

  lemma ArgumentsFromFlag(name: string, flag: Flag, tokens: seq<string>, rest: seq<string>)
    requires tokens != [] && IsFlag(tokens[0]) && HeadFlag(tokens + rest) == (|tokens|, name, flag)
    ensures Arguments(tokens + rest) == [Named(name, flag, tokens)] + Arguments(rest)
  {
    assert (tokens + rest)[..|tokens|] == tokens && (tokens + rest)[|tokens|..] == rest;
  }

  /** Arguments that are written are the arguments of the line they make up. */
  lemma {:induction false} WrittenIsRead(arguments: seq<Argument>)
    requires AreWritten(arguments)
    ensures Arguments(TokensOf(arguments)) == arguments
  {
    if arguments == [] {
    } else {
      var first, rest := arguments[0], TokensOf(arguments[1..]);
      TailIsWritten(arguments);
      WrittenIsRead(arguments[1..]);
      if first.Named? {
        if first.flag.Bare? {
          AfterBareComesFlag(arguments);
        }
        WrittenFlagIsRead(first.name, first.flag, first.tokens, rest);
        ArgumentsFromFlag(first.name, first.flag, first.tokens, rest);
      } else {
        assert ([first.token] + rest)[1..] == rest;
      }
    }
  }

  /** So a line has one list of arguments only. */
  lemma ArgumentsAreUnique(a: seq<Argument>, b: seq<Argument>)
    requires AreWritten(a) && AreWritten(b) && TokensOf(a) == TokensOf(b)
    ensures a == b
  {
    WrittenIsRead(a);
    WrittenIsRead(b);
  }

  lemma {:induction false} LastNamedCons(a: Argument, rest: seq<Argument>, name: string)
    ensures LastNamed([a] + rest, name) ==
            if LastNamed(rest, name).Some? then LastNamed(rest, name)
            else if a.Named? && a.name == name then Some(a.flag) else None
    decreases |rest|
  {
    if rest == [] {
      assert [a] + rest == [a] && [a][..0] == [];
    } else {
      var front := rest[..|rest| - 1];
      assert ([a] + rest)[..|rest|] == [a] + front;
      LastNamedCons(a, front, name);
    }
  }

  /** The split has the positionals of the line in order, and of each flag the last value the line gives it. */
  lemma {:induction false} LastFlagCounts(tokens: seq<string>, name: string)
    ensures SplitOf(tokens).positionals == Positionals(Arguments(tokens))
    ensures var flags := SplitOf(tokens).flags;
            LastNamed(Arguments(tokens), name) == if name in flags then Some(flags[name]) else None
  {
    if tokens == [] {
    } else if IsFlag(tokens[0]) {
      var (taken, first, flag) := HeadFlag(tokens);
      LastFlagCounts(tokens[taken..], name);
      LastNamedCons(Named(first, flag, tokens[..taken]), Arguments(tokens[taken..]), name);
      assert Arguments(tokens)[1..] == Arguments(tokens[taken..]);
    } else {
      LastFlagCounts(tokens[1..], name);
      LastNamedCons(Positional(tokens[0]), Arguments(tokens[1..]), name);
      assert Arguments(tokens)[1..] == Arguments(tokens[1..]);
    }
  }

  // ---- the loop --------------------------------------------------------------------

  /** What two stretches of tokens split into together. */
  function Joined(a: Split, b: Split): Split {
    Split(a.positionals + b.positionals, a.flags + b.flags)
  }

  lemma JoinFlag(seen: Split, tokens: seq<string>)
    requires tokens != [] && IsFlag(tokens[0])
    ensures var (taken, name, flag) := HeadFlag(tokens);
            Joined(seen, SplitOf(tokens)) == Joined(seen.(flags := seen.flags[name := flag]), SplitOf(tokens[taken..]))
  {
    var (taken, name, flag) := HeadFlag(tokens);
    var rest := SplitOf(tokens[taken..]).flags;
    assert seen.flags + (map[name := flag] + rest) == seen.flags[name := flag] + rest;
  }

  /** `seen` is what the tokens before position `i` split into. */
  ghost predicate SplitUpTo(tokens: seq<string>, i: nat, seen: Split) {
    i <= |tokens| && SplitOf(tokens) == Joined(seen, SplitOf(tokens[i..]))
  }

  lemma PassFlag(tokens: seq<string>, i: nat, seen: Split, taken: nat, name: string, flag: Flag)
    requires i < |tokens| && SplitUpTo(tokens, i, seen)
    requires IsFlag(tokens[i]) && (taken, name, flag) == HeadFlag(tokens[i..])
    ensures SplitUpTo(tokens, i + taken, seen.(flags := seen.flags[name := flag]))
  {
    var here := tokens[i..];
    JoinFlag(seen, here);
    assert here[taken..] == tokens[i + taken..];
  }

  lemma PassPositional(tokens: seq<string>, i: nat, seen: Split)
    requires i < |tokens| && SplitUpTo(tokens, i, seen) && !IsFlag(tokens[i])
    ensures SplitUpTo(tokens, i + 1, seen.(positionals := seen.positionals + [tokens[i]]))
  {
    assert tokens[i..][1..] == tokens[i + 1..];
    Reassociate(seen.positionals, [tokens[i]], SplitOf(tokens[i + 1..]).positionals);
  }

  /** Reads the flag at position `i`: its value after an equals sign, in the next token, or none. */
  method ReadFlag(tokens: seq<string>, i: nat) returns (taken: nat, name: string, flag: Flag)
    requires i < |tokens| && IsFlag(tokens[i])
    ensures (taken, name, flag) == HeadFlag(tokens[i..])
  {
    var body := tokens[i][2..];
    IndexOfIsFirst(body, '=');
    var eq := IndexOf(body, '=');
    if eq.Some? {
      return 1, body[..eq.value], Text(body[eq.value + 1..]);
    }
    if i + 1 < |tokens| && !IsFlag(tokens[i + 1]) {
      return 2, body, Text(tokens[i + 1]);
    }
    return 1, body, Bare;
  }

  lemma SplitStarts(tokens: seq<string>)
    ensures SplitUpTo(tokens, 0, Split([], map[]))
  {
    assert tokens[0..] == tokens;
    assert [] + SplitOf(tokens).positionals == SplitOf(tokens).positionals;
  }

  lemma SplitEnds(tokens: seq<string>, seen: Split)
    requires SplitUpTo(tokens, |tokens|, seen)
    ensures seen == SplitOf(tokens)
  {
    assert tokens[|tokens|..] == [] && seen.positionals + [] == seen.positionals;
  }

  /** The loop of `splitFlags`: one pass, later flags overwriting earlier ones. */
  method SplitFlags(tokens: seq<string>) returns (r: Split)
    ensures r == SplitOf(tokens)
  {
    var positionals: seq<string> := [];
    var flags: map<string, Flag> := map[];
    var i := 0;
    SplitStarts(tokens);
    while i < |tokens|
      invariant i <= |tokens| && SplitUpTo(tokens, i, Split(positionals, flags))
    {
      if IsFlag(tokens[i]) {
        var taken, name, flag := ReadFlag(tokens, i);
        PassFlag(tokens, i, Split(positionals, flags), taken, name, flag);
        flags := flags[name := flag];
        i := i + taken;
      } else {
        PassPositional(tokens, i, Split(positionals, flags));
        positionals := positionals + [tokens[i]];
        i := i + 1;
      }
    }
    r := Split(positionals, flags);
    SplitEnds(tokens, r);
  }

  /** `Number` on the forms the grammar is documented for: blank, or decimal digits. */
  function ParseNumber(s: string): Option<nat> {
    var t := Trim(s);
    if t == "" then Some(0)
    else if AllDigits(t) then Some(NumeralValue(t))
    else None
  }

  function IntFlag(flags: map<string, Flag>, name: string): Result<Option<nat>, ParseError> {
    if name !in flags then Ok(None)
    else match flags[name]
      case Bare => Err(NeedsNumber(name))
      case Text(v) =>
        match ParseNumber(v)
        case Some(n) => Ok(Some(n))
        case None => Err(NotNonNegativeInteger(name))
  }

  // ---- the parsers -----------------------------------------------------------------

  function Lower(s: string): string {
    seq(|s|, i requires 0 <= i < |s| => if 'A' <= s[i] <= 'Z' then s[i] - 'A' + 'a' else s[i])
  }

  /** The first positional, unless it is missing or empty. */
  function Name(positionals: seq<string>): Option<string> {
    if positionals != [] && positionals[0] != "" then Some(positionals[0]) else None
  }

  function ParseTopic(raw: string, b: Option<string>, rest: seq<string>): Parsed {
    var sub := if b.Some? then Lower(b.value) else "";
    var Split(positionals, flags) := SplitOf(rest);
    var name := Name(positionals);
    if sub == "describe" then
      if name.None? then Err(Usage(TopicDescribe)) else Ok(Blank(TopicDescribe, raw).(topic := name))
    else if sub == "create" then
      if name.None? then Err(Usage(TopicCreate)) else
      var partitions :- IntFlag(flags, "partitions");
      var replication :- IntFlag(flags, "replication");
      Ok(Blank(TopicCreate, raw).(topic := name, partitions := partitions, replication := replication))
    else if sub == "delete" then
      if name.None? then Err(Usage(TopicDelete)) else Ok(Blank(TopicDelete, raw).(topic := name))
    else Err(UnknownTopicSubcommand(if b.Some? then b.value else ""))
  }

  function ParseGroup(raw: string, b: Option<string>, rest: seq<string>): Parsed {
    var sub := if b.Some? then Lower(b.value) else "";
    var group := Name(SplitOf(rest).positionals);
    if sub == "describe" then
      if group.None? then Err(Usage(GroupDescribe)) else Ok(Blank(GroupDescribe, raw).(group := group))
    else if sub == "lag" then
      if group.None? then Err(Usage(GroupLag)) else Ok(Blank(GroupLag, raw).(group := group))
    else Err(UnknownGroupSubcommand(if b.Some? then b.value else ""))
  }

  /** `filter(Boolean)`: the tokens that are not empty. */
  function NonEmpty(tokens: seq<string>): (r: seq<string>)
    ensures "" !in r
  {
    if tokens == [] then []
    else (if tokens[0] == "" then [] else [tokens[0]]) + NonEmpty(tokens[1..])
  }

  function FlagText(flags: map<string, Flag>, name: string): Option<string> {
    if name in flags && flags[name].Text? then Some(flags[name].text) else None
  }

  /** The key and value of a produce command, from its flags and positionals. */
  function KeyAndValue(positionals: seq<string>, flags: map<string, Flag>): (Option<string>, Option<string>) {
    if "value" !in flags then
      var (key, value) :=
        if |positionals| >= 3 then (Some(positionals[1]), Some(positionals[2]))
        else if |positionals| == 2 then (None, Some(positionals[1]))
        else (None, None);
      (if FlagText(flags, "key").Some? then FlagText(flags, "key") else key, value)
    else
      var key :=
        if "key" in flags then FlagText(flags, "key")
        else if |positionals| >= 2 then Some(positionals[1])
        else None;
      (key, FlagText(flags, "value"))
  }

  function ParseProduce(raw: string, args: seq<string>): Parsed {
    var Split(positionals, flags) := SplitOf(NonEmpty(args));
    var topic := Name(positionals);
    if topic.None? then Err(Usage(Produce)) else
    var (key, value) := KeyAndValue(positionals, flags);
    if value.None? then Err(ProduceNeedsValue) else
    var partition :- IntFlag(flags, "partition");
    Ok(Blank(Produce, raw).(topic := topic, key := key, value := value, partition := partition))
  }

  function ParseConsume(raw: string, args: seq<string>): Parsed {
    var Split(positionals, flags) := SplitOf(NonEmpty(args));
    var topic := Name(positionals);
    if topic.None? then Err(Usage(Consume)) else
    var fromEnd :- IntFlag(flags, "from-end");
    var fromStart :- IntFlag(flags, "from-start");
    if fromEnd.Some? && fromStart.Some? then Err(OnlyOneEnd) else
    var partition :- IntFlag(flags, "partition");
    var limit :- IntFlag(flags, "limit");
    Ok(Blank(Consume, raw).(
         topic := topic, fromEnd := fromEnd, fromStart := fromStart, partition := partition, limit := limit))
  }

  /** The choice of parser by the first words of a line. */
  function Dispatch(raw: string, tokens: seq<string>): Parsed
    requires tokens != []
  {
    var a := tokens[0];
    var b := if |tokens| > 1 then Some(tokens[1]) else None;
    var rest := if |tokens| > 1 then tokens[2..] else [];
    var head := Lower(a);
    var sub := if b.Some? then Lower(b.value) else "";
    if head == "cluster" && sub == "info" then Ok(Blank(ClusterInfo, raw))
    else if head == "topics" && sub == "list" then Ok(Blank(TopicsList, raw))
    else if head == "groups" && sub == "list" then Ok(Blank(GroupsList, raw))
    else if head == "topic" then ParseTopic(raw, b, rest)
    else if head == "group" then ParseGroup(raw, b, rest)
    else if head == "produce" then ParseProduce(raw, tokens[1..])
    else if head == "consume" then ParseConsume(raw, tokens[1..])
    else Err(UnknownCommand(a))
  }

  /** The value `parseCommand` returns, or what it throws. */
  function Parse(input: string): Parsed {
    var raw := Trim(input);
    if raw == "" then Err(EmptyCommand)
    else match Tokens(raw, "", false)
      case Err(quote) => Err(Unterminated(quote))
      case Ok(tokens) =>
        TrimmedStartsVisible(input);
        StartedLineHasToken(raw, "", false);
        Dispatch(raw, tokens)
  }

  /** Parses one kafka-shell line; the first token it reads is always there. */
  method ParseCommand(input: string) returns (r: Parsed)
    ensures r == Parse(input)
  {
    var raw := Trim(input);
    if raw == "" {
      return Err(EmptyCommand);
    }
    var tokens := Tokenize(raw);
    if tokens.Err? {
      return Err(Unterminated(tokens.error));
    }
    TrimmedStartsVisible(input);
    StartedLineHasToken(raw, "", false);
    r := Dispatch(raw, tokens.value);
  }
}
