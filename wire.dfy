/**
 * The wire vocabulary shared by both feed clients: control characters,
 * message types, the configured topics and the two outbound message
 * templates. The client builds each message by Python `%` formatting
 * applied twice: once to splice the control characters into a template,
 * and once per message to splice in the token or the topic. Here the
 * templates and the messages are written out, and lemmas prove each equal
 * to the corresponding formatting.
 */
module Wire {
  import opened Wrappers

  // Delimiters of the feed's protocol.
  const RecordDelimiter: char := '\U{1}'
  const FieldDelimiter: char := '\U{2}'
  const HandshakeDelimiter: char := '\U{3}'
  const MessageDelimiter: char := '\U{8}'

  // Encoding flag.
  const EncodingNone: char := '\U{0}'

  // Message types.
  const TopicLoadMessage: char := '\U{14}'
  const DeltaMessage: char := '\U{15}'
  const SubscribeType: char := '\U{16}'
  const TopicStatusNotification: char := '\U{23}'

  /** The two templates as written, before any formatting. */
  const SubscriptionFormat: string := "%s%s%%s%s"
  const IdentityFormat: string := "%s%sP%s" + "__time,S_" + "%%s%s"

  /** The topics subscribed to once the server signals it is ready, in subscription order. */
  const Topics: seq<string> := ["__host", "CONFIG_1_3", "LHInPlay_1_3", "Media_l1_Z3", "XI_1_3"]

  /**
   * Python truthiness of an optional string: `not x` holds for `None` and
   * for the empty string.
   */
  predicate Truthy(x: Option<string>) {
    x.Some? && x.value != ""
  }

  // ---------------------------------------------------------------------
  // Python `%` formatting, for the two directives the templates use.

  /** The exceptions `fmt % args` raises; the last one stands for any directive other than `%s` and `%%`. */
  datatype FormatError =
    | IncompleteFormat
    | NotEnoughArguments
    | NotAllArgumentsConverted
    | UnsupportedDirective(c: char)

  datatype FormatResult = Formatted(text: string) | FormatFailed(error: FormatError)

  function Prepend(p: string, r: FormatResult): FormatResult {
    match r
    case Formatted(t) => Formatted(p + t)
    case FormatFailed(e) => r
  }

  /**
   * `fmt % tuple(args)`, scanned left to right: `%%` stands for one `%`,
   * each `%s` takes the next argument, every other character is copied;
   * running out of arguments, or having arguments left over, is an error.
   */
  function Format(fmt: string, args: seq<string>): FormatResult
    decreases |fmt|
  {
    if |fmt| == 0 then
      if |args| == 0 then Formatted("") else FormatFailed(NotAllArgumentsConverted)
    else if fmt[0] != '%' then Prepend([fmt[0]], Format(fmt[1..], args))
    else if |fmt| == 1 then FormatFailed(IncompleteFormat)
    else if fmt[1] == '%' then Prepend("%", Format(fmt[2..], args))
    else if fmt[1] == 's' then
      if |args| == 0 then FormatFailed(NotEnoughArguments)
      else Prepend(args[0], Format(fmt[2..], args[1..]))
    else FormatFailed(UnsupportedDirective(fmt[1]))
  }

  /** Text without `%` is copied through unchanged. */
  lemma {:induction false} FormatLiteral(p: string, rest: string, args: seq<string>)
    requires '%' !in p
    ensures Format(p + rest, args) == Prepend(p, Format(rest, args))
  {
    if |p| > 0 {
      assert (p + rest)[1..] == p[1..] + rest;
      FormatLiteral(p[1..], rest, args);
      assert [p[0]] + p[1..] == p;
      match Format(rest, args)
      case Formatted(t) =>
        assert [p[0]] + (p[1..] + t) == p + t;
      case FormatFailed(_) =>
    } else {
      assert p + rest == rest;
      match Format(rest, args)
      case Formatted(t) =>
        assert p + t == t;
      case FormatFailed(_) =>
    }
  }

  /** A `%s` directive takes the next argument. */
  lemma FormatDirective(rest: string, arg: string, args: seq<string>)
    ensures Format("%s" + rest, [arg] + args) == Prepend(arg, Format(rest, args))
  {
    assert ("%s" + rest)[2..] == rest;
    assert ([arg] + args)[1..] == args;
  }

  /** `%%` is one literal `%`. */
  lemma FormatPercent(rest: string, args: seq<string>)
    ensures Format("%%" + rest, args) == Prepend("%", Format(rest, args))
  {
    assert ("%%" + rest)[2..] == rest;
  }

  /** With no arguments, text without `%` formats to itself. */
  lemma FormatPlain(p: string)
    requires '%' !in p
    ensures Format(p, []) == Formatted(p)
  {
    FormatLiteral(p, "", []);
    assert p + "" == p;
  }

  /** One `%s` between two texts without `%`, given one argument. */
  lemma FormatOne(p: string, q: string, arg: string)
    requires '%' !in p && '%' !in q
    ensures Format(p + "%s" + q, [arg]) == Formatted(p + arg + q)
  {
    FormatPlain(q);
    FormatDirective(q, arg, []);
    assert [arg] + [] == [arg];
    assert Format("%s" + q, [arg]) == Formatted(arg + q);
    FormatLiteral(p, "%s" + q, [arg]);
    assert p + "%s" + q == p + ("%s" + q);
    assert p + (arg + q) == p + arg + q;
  }

  // ---------------------------------------------------------------------
  // The two outbound templates.

  /**
   * The subscription template after its first formatting: the subscribe
   * type, the no-encoding flag, a `%s` slot for the topic and a record
   * delimiter.
   */
  const SubscriptionTemplate: string := [SubscribeType, EncodingNone] + "%s" + [RecordDelimiter]

  /** Formatting `SubscriptionFormat` with the protocol's characters gives `SubscriptionTemplate`. */
  lemma SubscriptionTemplateFormats()
    ensures Format(SubscriptionFormat, [[SubscribeType], [EncodingNone], [RecordDelimiter]]) == Formatted(SubscriptionTemplate)
  {
    SubscriptionShapeFormats([SubscribeType], [EncodingNone], [RecordDelimiter]);
  }

  /** The first formatting of the subscription template, for any three arguments. */
  lemma SubscriptionShapeFormats(a: string, b: string, c: string)
    ensures Format(SubscriptionFormat, [a, b, c]) == Formatted(a + b + "%s" + c)
  {
    PercentSlotFormats(c);
    FormatDirective("%%s%s", b, [c]);
    assert [b, c] == [b] + [c];
    assert Format("%s%%s%s", [b, c]) == Formatted(b + ("%s" + c));
    FormatDirective("%s%%s%s", a, [b, c]);
    assert [a, b, c] == [a] + [b, c];
    assert SubscriptionFormat == "%s" + "%s%%s%s";
    assert a + (b + ("%s" + c)) == a + b + "%s" + c;
  }

  /**
   * The identity template after its first formatting: the topic status
   * notification type, the handshake delimiter, `P`, a record delimiter,
   * `__time,S_`, a `%s` slot for the token and, after the slot, the
   * no-encoding flag.
   */
  const IdentityTemplate: string := [TopicStatusNotification, HandshakeDelimiter, 'P', RecordDelimiter] + "__time,S_" + "%s" + [EncodingNone]

  /**
   * The first formatting of the identity template, traced directive by
   * directive for any four arguments and any `%`-free text in place of
   * `__time,S_`.
   */
  lemma IdentityShapeFormats(a: string, b: string, c: string, d: string, lit: string)
    requires '%' !in lit
    ensures Format("%s%sP%s" + lit + "%%s%s", [a, b, c, d]) == Formatted(a + b + "P" + c + lit + "%s" + d)
  {
    var t4 := "P%s" + lit + "%%s%s";
    var t5 := "%s" + t4;
    IdentityMiddleFormats(c, d, lit);
    FormatDirective(t4, b, [c, d]);
    FormatDirective(t5, a, [b, c, d]);
    assert [a, b, c, d] == [a] + [b, c, d] && [b, c, d] == [b] + [c, d];
    assert "%s" + t5 == "%s%sP%s" + lit + "%%s%s";
    assert a + (b + ("P" + c + lit + "%s" + d)) == a + b + "P" + c + lit + "%s" + d;
  }

  /** The identity template from `P` on. */
  lemma IdentityMiddleFormats(c: string, d: string, lit: string)
    requires '%' !in lit
    ensures Format("P%s" + lit + "%%s%s", [c, d]) == Formatted("P" + c + lit + "%s" + d)
  {
    var t2 := lit + "%%s%s";
    var t3 := "%s" + t2;
    IdentityTailFormats(d, lit);
    FormatDirective(t2, c, [d]);
    FormatLiteral("P", t3, [c, d]);
    assert [c, d] == [c] + [d];
    assert "P" + t3 == "P%s" + lit + "%%s%s";
    assert "P" + (c + (lit + "%s" + d)) == "P" + c + lit + "%s" + d;
  }

  /** The end of both templates: `%`-free text, `%%s`, then a `%s` for the last argument. */
  lemma IdentityTailFormats(d: string, lit: string)
    requires '%' !in lit
    ensures Format(lit + "%%s%s", [d]) == Formatted(lit + "%s" + d)
  {
    PercentSlotFormats(d);
    FormatLiteral(lit, "%%s%s", [d]);
    assert lit + ("%s" + d) == lit + "%s" + d;
  }

  /** `%%s%s`: a literal `%s`, then the one argument. */
  lemma PercentSlotFormats(d: string)
    ensures Format("%%s%s", [d]) == Formatted("%s" + d)
  {
    FormatDirective("", d, []);
    assert "%s" + "" == "%s";
    FormatLiteral("s", "%s", [d]);
    assert "s" + "%s" == "s%s";
    FormatPercent("s%s", [d]);
    assert "%%" + "s%s" == "%%s%s";
    assert "%" + ("s" + d) == "%s" + d;
  }

  /** Formatting `IdentityFormat` with the protocol's characters gives `IdentityTemplate`. */
  lemma IdentityTemplateFormats()
    ensures Format(IdentityFormat, [[TopicStatusNotification], [HandshakeDelimiter], [RecordDelimiter], [EncodingNone]])
         == Formatted(IdentityTemplate)
  {
    IdentityShapeFormats([TopicStatusNotification], [HandshakeDelimiter], [RecordDelimiter], [EncodingNone], "__time,S_");
    assert [TopicStatusNotification] + [HandshakeDelimiter] + "P" + [RecordDelimiter]
        == [TopicStatusNotification, HandshakeDelimiter, 'P', RecordDelimiter];
  }

  /** The message subscribing to `topic`: `\x16 \x00 topic \x01`. */
  function SubscriptionMessage(topic: string): string {
    [SubscribeType, EncodingNone] + topic + [RecordDelimiter]
  }

  /** Formatting the subscription template with a topic gives that topic's subscription message. */
  lemma SubscriptionMessageFormats(topic: string)
    ensures Format(SubscriptionTemplate, [topic]) == Formatted(SubscriptionMessage(topic))
  {
    FormatOne([SubscribeType, EncodingNone], [RecordDelimiter], topic);
  }

  /**
   * The identity message carrying the session token: `\x23 \x03 P \x01
   * __time,S_ token \x00`; the token sits before the no-encoding flag.
   */
  function IdentityMessage(token: string): string {
    [TopicStatusNotification, HandshakeDelimiter, 'P', RecordDelimiter] + "__time,S_" + token + [EncodingNone]
  }

  /** Formatting the identity template with a token gives that token's identity message. */
  lemma IdentityMessageFormats(token: string)
    ensures Format(IdentityTemplate, [token]) == Formatted(IdentityMessage(token))
  {
    FormatOne([TopicStatusNotification, HandshakeDelimiter, 'P', RecordDelimiter] + "__time,S_", [EncodingNone], token);
  }

  /** The subscription messages for `topics`, one per topic, in the topics' order. */
  function Subscriptions(topics: seq<string>): seq<string>
  {
    seq(|topics|, i requires 0 <= i < |topics| => SubscriptionMessage(topics[i]))
  }

  /** The subscription messages for the configured topics, in subscription order. */
  const TopicSubscriptions: seq<string> := Subscriptions(Topics)

  /** One more topic, one more subscription message at the end. */
  lemma SubscriptionsPrefix(topics: seq<string>, i: nat)
    requires i < |topics|
    ensures Subscriptions(topics[..i + 1]) == Subscriptions(topics[..i]) + [SubscriptionMessage(topics[i])]
  {
  }
}
