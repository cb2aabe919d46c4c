/**
 A canonical printer for kafka-shell commands and the two halves of its round trip with
 `Parse` (src/kafka-client/commands.ts): everything well formed prints to a line that parses
 back, and everything that parses is well formed.
 */
module KafkaRoundTrip {
  import opened Wrappers
  import opened Text
  import opened KafkaLexer
  import opened KafkaCommands

  // ---- well-formed commands --------------------------------------------------------

  predicate IsName(name: Option<string>) {
    name.Some? && name.value != "" && !IsFlag(name.value)
  }

  /** A command with the fields its verb needs, the options its verb allows, and nothing else. */
  predicate WellFormed(c: Command) {
    var bare := Blank(c.verb, c.raw);
    match c.verb
    case ClusterInfo | TopicsList | GroupsList => c == bare
    case TopicDescribe | TopicDelete => IsName(c.topic) && c == bare.(topic := c.topic)
    case TopicCreate =>
      IsName(c.topic) && c == bare.(topic := c.topic, partitions := c.partitions, replication := c.replication)
    case GroupDescribe | GroupLag => IsName(c.group) && c == bare.(group := c.group)
    case Produce =>
      && IsName(c.topic) && c.value.Some?
      && c == bare.(topic := c.topic, key := c.key, value := c.value, partition := c.partition)
    case Consume =>
      && IsName(c.topic) && !(c.fromEnd.Some? && c.fromStart.Some?)
      && c == bare.(
           topic := c.topic, fromEnd := c.fromEnd, fromStart := c.fromStart,
           partition := c.partition, limit := c.limit)
  }

  // ---- the printer -----------------------------------------------------------------

  function TextOption(name: string, value: Option<string>): seq<(string, string)> {
    if value.Some? then [(name, value.value)] else []
  }

  function Decimal(n: Option<nat>): Option<string> {
    if n.Some? then Some(Numeral(n.value)) else None
  }

  function NumberOption(name: string, n: Option<nat>): seq<(string, string)> {
    TextOption(name, Decimal(n))
  }

  function Options(c: Command): seq<(string, string)> {
    match c.verb
    case TopicCreate => NumberOption("partitions", c.partitions) + NumberOption("replication", c.replication)
    case Produce =>
      TextOption("value", c.value) + TextOption("key", c.key) + NumberOption("partition", c.partition)
    case Consume =>
      NumberOption("from-end", c.fromEnd) + NumberOption("from-start", c.fromStart)
      + NumberOption("partition", c.partition) + NumberOption("limit", c.limit)
    case _ => []
  }

  function OptionToken(name: string, value: string): string {
    "--" + name + "=" + value
  }

  function OptionTokens(options: seq<(string, string)>): seq<string> {
    if options == [] then []
    else [OptionToken(options[0].0, options[0].1)] + OptionTokens(options[1..])
  }

  function VerbWords(verb: Verb): seq<string> {
    match verb
    case ClusterInfo => ["cluster", "info"]
    case TopicsList => ["topics", "list"]
    case GroupsList => ["groups", "list"]
    case TopicDescribe => ["topic", "describe"]
    case TopicCreate => ["topic", "create"]
    case TopicDelete => ["topic", "delete"]
    case GroupDescribe => ["group", "describe"]
    case GroupLag => ["group", "lag"]
    case Produce => ["produce"]
    case Consume => ["consume"]
  }

  function Operand(c: Command): seq<string> {
    if c.topic.Some? then [c.topic.value] else if c.group.Some? then [c.group.value] else []
  }

  function PrintedTokens(c: Command): seq<string> {
    VerbWords(c.verb) + (Operand(c) + OptionTokens(Options(c)))
  }

  /** The canonical line of a command: every word quoted, every option as `--name=value`. */
  function Print(c: Command): string {
    Line(PrintedTokens(c))
  }

  // ---- printed options split back --------------------------------------------------

  ghost predicate PlainNames(options: seq<(string, string)>) {
    forall k :: 0 <= k < |options| ==> '=' !in options[k].0
  }

  function FlagsOf(options: seq<(string, string)>): map<string, Flag> {
    if options == [] then map[]
    else map[options[0].0 := Flag.Text(options[0].1)] + FlagsOf(options[1..])
  }

  lemma OptionIsOneFlag(name: string, value: string, rest: seq<string>)
    requires '=' !in name
    ensures IsFlag(OptionToken(name, value))
    ensures HeadFlag([OptionToken(name, value)] + rest) == (1, name, Flag.Text(value))
  {
    var body := OptionToken(name, value)[2..];
    assert body == name + ['='] + value;
    IndexOfAfterPrefix(name, '=', value);
    assert body[..|name|] == name && body[|name| + 1..] == value;
  }

  lemma {:induction false} OptionTokensSplit(options: seq<(string, string)>)
    requires PlainNames(options)
    ensures SplitOf(OptionTokens(options)) == Split([], FlagsOf(options))
    ensures "" !in OptionTokens(options)
  {
    if options == [] {
    } else {
      var (name, value) := options[0];
      OptionIsOneFlag(name, value, OptionTokens(options[1..]));
      OptionTokensSplit(options[1..]);
      assert OptionTokens(options)[1..] == OptionTokens(options[1..]);
    }
  }

  lemma {:induction false} NonEmptyKeeps(tokens: seq<string>)
    requires "" !in tokens
    ensures NonEmpty(tokens) == tokens
  {
    if tokens == [] {
    } else {
      NonEmptyKeeps(tokens[1..]);
    }
  }

  /** Printed arguments split back into the operand and the options. */
  lemma ArgumentsSplit(operand: string, options: seq<(string, string)>)
    requires operand != "" && !IsFlag(operand) && PlainNames(options)
    ensures var args := [operand] + OptionTokens(options);
            NonEmpty(args) == args && SplitOf(args) == Split([operand], FlagsOf(options))
  {
    var args := [operand] + OptionTokens(options);
    OptionTokensSplit(options);
    NonEmptyKeeps(args);
    assert args[1..] == OptionTokens(options);
  }

  lemma FlagsOfCons(option: (string, string), rest: seq<(string, string)>)
    ensures FlagsOf([option] + rest) == map[option.0 := Flag.Text(option.1)] + FlagsOf(rest)
  {
    assert ([option] + rest)[1..] == rest;
  }

  lemma UnionTwice(a: map<string, Flag>, b: map<string, Flag>, c: map<string, Flag>)
    ensures a + (b + c) == a + b + c
  {
  }

  lemma {:induction false} FlagsOfConcat(a: seq<(string, string)>, b: seq<(string, string)>)
    ensures FlagsOf(a + b) == FlagsOf(a) + FlagsOf(b)
  {
    if a == [] {
      assert a + b == b;
    } else {
      assert a == [a[0]] + a[1..];
      FlagsOfCons(a[0], a[1..] + b);
      Reassociate([a[0]], a[1..], b);
      FlagsOfConcat(a[1..], b);
      UnionTwice(map[a[0].0 := Flag.Text(a[0].1)], FlagsOf(a[1..]), FlagsOf(b));
    }
  }

  function With(flags: map<string, Flag>, name: string, value: Option<string>): map<string, Flag> {
    if value.Some? then flags[name := Flag.Text(value.value)] else flags
  }

  lemma OptionAdds(options: seq<(string, string)>, name: string, value: Option<string>)
    ensures FlagsOf(options + TextOption(name, value)) == With(FlagsOf(options), name, value)
  {
    FlagsOfConcat(options, TextOption(name, value));
    assert FlagsOf(TextOption(name, value)) == With(map[], name, value);
  }

  /** A printed number reads back, and printing it disturbs no other flag. */
  lemma NumberReadsBack(flags: map<string, Flag>, name: string, n: Option<nat>)
    requires name !in flags
    ensures IntFlag(With(flags, name, Decimal(n)), name) == Ok(n)
    ensures forall other :: other != name ==> IntFlag(With(flags, name, Decimal(n)), other) == IntFlag(flags, other)
  {
    if n.Some? {
      NumeralRoundTrip(n.value);
      DigitsAreTrimmed(Numeral(n.value));
    }
  }

  // ---- printing, then parsing ------------------------------------------------------

  lemma LineIsTrimmed(words: seq<string>)
    requires words != []
    ensures Line(words) != "" && Line(words)[0] == '"' && Line(words)[|Line(words)| - 1] == '"'
    decreases |words|
  {
    if |words| > 1 {
      LineIsTrimmed(words[1..]);
    }
  }

  lemma ParseOfLine(words: seq<string>)
    requires words != []
    ensures Parse(Line(words)) == Dispatch(Line(words), words)
  {
    LineIsTrimmed(words);
    NothingToTrim(Line(words));
    TokensInvertLine(words);
  }

  lemma LowerIsFixed(s: string)
    requires forall i :: 0 <= i < |s| ==> 'a' <= s[i] <= 'z'
    ensures Lower(s) == s
  {
  }

  lemma VerbWordsAreLower(verb: Verb)
    ensures forall k :: 0 <= k < |VerbWords(verb)| ==> Lower(VerbWords(verb)[k]) == VerbWords(verb)[k]
  {
    forall k | 0 <= k < |VerbWords(verb)| ensures Lower(VerbWords(verb)[k]) == VerbWords(verb)[k] {
      LowerIsFixed(VerbWords(verb)[k]);
    }
  }

  lemma ProduceFlags(c: Command)
    requires WellFormed(c) && c.verb == Produce
    ensures var flags := FlagsOf(Options(c));
            && flags == With(With(With(map[], "value", c.value), "key", c.key), "partition", Decimal(c.partition))
            && IntFlag(flags, "partition") == Ok(c.partition)
  {
    var value, key := TextOption("value", c.value), TextOption("key", c.key);
    OptionAdds([], "value", c.value);
    assert [] + value == value;
    OptionAdds(value, "key", c.key);
    OptionAdds(value + key, "partition", Decimal(c.partition));
    NumberReadsBack(FlagsOf(value + key), "partition", c.partition);
  }

  lemma ParseOfProduce(c: Command, raw: string)
    requires WellFormed(c) && c.verb == Produce
    ensures ParseProduce(raw, Operand(c) + OptionTokens(Options(c))) == Ok(c.(raw := raw))
  {
    ArgumentsSplit(c.topic.value, Options(c));
    ProduceFlags(c);
    assert KeyAndValue([c.topic.value], FlagsOf(Options(c))) == (c.key, c.value);
  }

  lemma ConsumeFlags(c: Command)
    requires WellFormed(c) && c.verb == Consume
    ensures var flags := FlagsOf(Options(c));
            && IntFlag(flags, "from-end") == Ok(c.fromEnd)
            && IntFlag(flags, "from-start") == Ok(c.fromStart)
            && IntFlag(flags, "partition") == Ok(c.partition)
            && IntFlag(flags, "limit") == Ok(c.limit)
  {
    var end, start := NumberOption("from-end", c.fromEnd), NumberOption("from-start", c.fromStart);
    var partition, limit := NumberOption("partition", c.partition), NumberOption("limit", c.limit);
    OptionAdds([], "from-end", Decimal(c.fromEnd));
    assert [] + end == end;
    OptionAdds(end, "from-start", Decimal(c.fromStart));
    OptionAdds(end + start, "partition", Decimal(c.partition));
    OptionAdds(end + start + partition, "limit", Decimal(c.limit));
    NumberReadsBack(FlagsOf([]), "from-end", c.fromEnd);
    NumberReadsBack(FlagsOf(end), "from-start", c.fromStart);
    NumberReadsBack(FlagsOf(end + start), "partition", c.partition);
    NumberReadsBack(FlagsOf(end + start + partition), "limit", c.limit);
  }

  /** What `consume` makes of a split line whose four number flags read as given. */
  lemma ConsumeOfSplit(raw: string, args: seq<string>, c: Command)
    requires WellFormed(c) && c.verb == Consume && NonEmpty(args) == args
    requires SplitOf(args).positionals == [c.topic.value]
    requires var flags := SplitOf(args).flags;
             && IntFlag(flags, "from-end") == Ok(c.fromEnd)
             && IntFlag(flags, "from-start") == Ok(c.fromStart)
             && IntFlag(flags, "partition") == Ok(c.partition)
             && IntFlag(flags, "limit") == Ok(c.limit)
    ensures ParseConsume(raw, args) == Ok(c.(raw := raw))
  {
  }

  lemma ParseOfConsume(c: Command, raw: string)
    requires WellFormed(c) && c.verb == Consume
    ensures ParseConsume(raw, Operand(c) + OptionTokens(Options(c))) == Ok(c.(raw := raw))
  {
    var args := Operand(c) + OptionTokens(Options(c));
    assert PlainNames(Options(c));
    ArgumentsSplit(c.topic.value, Options(c));
    ConsumeFlags(c);
    ConsumeOfSplit(raw, args, c);
  }

  lemma CreateFlags(c: Command)
    requires WellFormed(c) && c.verb == TopicCreate
    ensures var flags := FlagsOf(Options(c));
            && IntFlag(flags, "partitions") == Ok(c.partitions)
            && IntFlag(flags, "replication") == Ok(c.replication)
  {
    var partitions := NumberOption("partitions", c.partitions);
    OptionAdds([], "partitions", Decimal(c.partitions));
    assert [] + partitions == partitions;
    OptionAdds(partitions, "replication", Decimal(c.replication));
    NumberReadsBack(FlagsOf([]), "partitions", c.partitions);
    NumberReadsBack(FlagsOf(partitions), "replication", c.replication);
  }

  /** What `topic create` makes of a split line whose number flags read as given. */
  lemma CreateOfSplit(raw: string, args: seq<string>, c: Command)
    requires WellFormed(c) && c.verb == TopicCreate && SplitOf(args).positionals == [c.topic.value]
    requires var flags := SplitOf(args).flags;
             && IntFlag(flags, "partitions") == Ok(c.partitions)
             && IntFlag(flags, "replication") == Ok(c.replication)
    ensures ParseTopic(raw, Some("create"), args) == Ok(c.(raw := raw))
  {
    LowerIsFixed("create");
    assert Name(SplitOf(args).positionals) == c.topic;
  }

  lemma ParseOfTopicCreate(c: Command, raw: string)
    requires WellFormed(c) && c.verb == TopicCreate
    ensures ParseTopic(raw, Some("create"), Operand(c) + OptionTokens(Options(c))) == Ok(c.(raw := raw))
  {
    ArgumentsSplit(c.topic.value, Options(c));
    CreateFlags(c);
    CreateOfSplit(raw, Operand(c) + OptionTokens(Options(c)), c);
  }

  lemma ParseOfTopic(c: Command, raw: string)
    requires WellFormed(c) && c.verb in {TopicDescribe, TopicDelete}
    ensures ParseTopic(raw, Some(VerbWords(c.verb)[1]), Operand(c) + OptionTokens(Options(c))) == Ok(c.(raw := raw))
  {
    VerbWordsAreLower(c.verb);
    ArgumentsSplit(c.topic.value, []);
  }

  lemma ParseOfGroup(c: Command, raw: string)
    requires WellFormed(c) && c.verb in {GroupDescribe, GroupLag}
    ensures ParseGroup(raw, Some(VerbWords(c.verb)[1]), Operand(c) + OptionTokens(Options(c))) == Ok(c.(raw := raw))
  {
    VerbWordsAreLower(c.verb);
    ArgumentsSplit(c.group.value, Options(c));
  }

  /** The parser that the words of a verb lead to. */
  lemma DispatchOfVerb(raw: string, verb: Verb, args: seq<string>)
    ensures Dispatch(raw, VerbWords(verb) + args) ==
            match verb
            case ClusterInfo | TopicsList | GroupsList => Ok(Blank(verb, raw))
            case TopicDescribe | TopicCreate | TopicDelete => ParseTopic(raw, Some(VerbWords(verb)[1]), args)
            case GroupDescribe | GroupLag => ParseGroup(raw, Some(VerbWords(verb)[1]), args)
            case Produce => ParseProduce(raw, args)
            case Consume => ParseConsume(raw, args)
  {
    var tokens := VerbWords(verb) + args;
    VerbWordsAreLower(verb);
    assert tokens[0] == VerbWords(verb)[0];
    if verb.Produce? || verb.Consume? {
      assert tokens[1..] == args;
    } else {
      assert tokens[1] == VerbWords(verb)[1] && tokens[2..] == args;
    }
  }

  /** Every well-formed command, printed, parses back to itself up to the raw line. */
  lemma ParseInvertsPrint(c: Command)
    requires WellFormed(c)
    ensures Parse(Print(c)) == Ok(c.(raw := Print(c)))
  {
    var raw := Print(c);
    ParseOfLine(PrintedTokens(c));
    DispatchOfVerb(raw, c.verb, Operand(c) + OptionTokens(Options(c)));
    match c.verb
    case ClusterInfo | TopicsList | GroupsList =>
    case TopicCreate => ParseOfTopicCreate(c, raw);
    case TopicDescribe | TopicDelete => ParseOfTopic(c, raw);
    case GroupDescribe | GroupLag => ParseOfGroup(c, raw);
    case Produce => ParseOfProduce(c, raw);
    case Consume => ParseOfConsume(c, raw);
  }

  // ---- parsing, then printing ------------------------------------------------------

  ghost predicate AcceptsOnlyWellFormed(raw: string, r: Parsed) {
    r.Ok? ==> WellFormed(r.value) && r.value.raw == raw
  }

  lemma TopicIsWellFormed(raw: string, b: Option<string>, rest: seq<string>)
    ensures AcceptsOnlyWellFormed(raw, ParseTopic(raw, b, rest))
  {
  }

  lemma GroupIsWellFormed(raw: string, b: Option<string>, rest: seq<string>)
    ensures AcceptsOnlyWellFormed(raw, ParseGroup(raw, b, rest))
  {
  }

  lemma ProduceIsWellFormed(raw: string, args: seq<string>)
    ensures AcceptsOnlyWellFormed(raw, ParseProduce(raw, args))
  {
  }

  lemma ConsumeIsWellFormed(raw: string, args: seq<string>)
    ensures AcceptsOnlyWellFormed(raw, ParseConsume(raw, args))
  {
  }

  lemma DispatchIsWellFormed(raw: string, tokens: seq<string>)
    requires tokens != []
    ensures AcceptsOnlyWellFormed(raw, Dispatch(raw, tokens))
  {
    var b := if |tokens| > 1 then Some(tokens[1]) else None;
    var rest := if |tokens| > 1 then tokens[2..] else [];
    match Lower(tokens[0])
    case "topic" => TopicIsWellFormed(raw, b, rest);
    case "group" => GroupIsWellFormed(raw, b, rest);
    case "produce" => ProduceIsWellFormed(raw, tokens[1..]);
    case "consume" => ConsumeIsWellFormed(raw, tokens[1..]);
    case _ =>
  }

  /** Every accepted line yields a well-formed command that carries the trimmed line. */
  lemma AcceptedIsWellFormed(input: string)
    requires Parse(input).Ok?
    ensures WellFormed(Parse(input).value) && Parse(input).value.raw == Trim(input)
  {
    var raw := Trim(input);
    TrimmedStartsVisible(input);
    StartedLineHasToken(raw, "", false);
    DispatchIsWellFormed(raw, Tokens(raw, "", false).value);
  }

  /** Printing what was parsed is a normal form: it parses to the same command and prints to itself. */
  lemma PrintIsNormalForm(input: string)
    requires Parse(input).Ok?
    ensures var c := Parse(input).value;
            && Parse(Print(c)) == Ok(c.(raw := Print(c)))
            && Print(Parse(Print(c)).value) == Print(c)
  {
    AcceptedIsWellFormed(input);
    ParseInvertsPrint(Parse(input).value);
  }

  /** No two well-formed commands share a canonical line. */
  lemma PrintIsInjective(c: Command, d: Command)
    requires WellFormed(c) && WellFormed(d) && Print(c) == Print(d)
    ensures c.(raw := d.raw) == d
  {
    ParseInvertsPrint(c);
    ParseInvertsPrint(d);
  }
}
