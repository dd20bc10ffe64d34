/**
 * The handler layer's shared vocabulary (src/handlers/mod.rs): the error every handler
 * returns, the text that error displays as, and the top-level command dispatch.
 */
module Handlers {
  import opened Wrappers
  import opened Strings

  /** What a handler reports instead of a result. */
  datatype CommandHandlerError =
    | RuntimeError(message: Option<string>)
    | MissingArguments(args: seq<string>)
    | MissingArgumentsSome(args: seq<string>)
    | UnknownError
  {
    /** The error's `Display` text, the words the command line shows the user. */
    function Display(): (s: string)
      ensures RuntimeError? && message.Some? ==> s == message.value
      ensures this == RuntimeError(None) ==> s == DEFAULT_RUNTIME_MESSAGE
      ensures MissingArguments? ==>
        |s| >= |REQUIRED_PREFIX| && s[..|REQUIRED_PREFIX|] == REQUIRED_PREFIX
        && ParseDebugList(s[|REQUIRED_PREFIX|..]) == Some(args)
      ensures MissingArgumentsSome? ==>
        |s| >= |AT_LEAST_ONE_PREFIX| && s[..|AT_LEAST_ONE_PREFIX|] == AT_LEAST_ONE_PREFIX
        && ParseDebugList(s[|AT_LEAST_ONE_PREFIX|..]) == Some(args)
      ensures UnknownError? ==> s == "Unknown error"
    {
      match this
      case RuntimeError(m) => if m.Some? then m.value else DEFAULT_RUNTIME_MESSAGE
      case MissingArguments(xs) =>
        var s := REQUIRED_PREFIX + DebugList(xs);
        DebugListRoundTrip(xs);
        assert s[|REQUIRED_PREFIX|..] == DebugList(xs);
        s
      case MissingArgumentsSome(xs) =>
        var s := AT_LEAST_ONE_PREFIX + DebugList(xs);
        DebugListRoundTrip(xs);
        assert s[|AT_LEAST_ONE_PREFIX|..] == DebugList(xs);
        s
      case UnknownError => "Unknown error"
    }
  }

  const DEFAULT_RUNTIME_MESSAGE := "A runtime error occurred!"
  const REQUIRED_PREFIX := "Required arguments: "
  const AT_LEAST_ONE_PREFIX := "At least one of the following arguments must be provided: "

  // ------------------------------------------------- Rust's `{:?}` of Vec<String>

  /** The ASCII control characters Rust's `Debug` writes as `\u{..}`. */
  predicate IsUnicodeEscaped(c: char)
  {
    ((c as int) < 0x20 || c as int == 0x7f) && c !in "\n\r\t\0"
  }

  /** How Rust's `Debug` for `str` writes one character between the quotes. */
  function EscapeChar(c: char): (e: string)
    ensures |e| > 0
  {
    if c == '"' then "\\\""
    else if c == '\\' then "\\\\"
    else if c == '\n' then "\\n"
    else if c == '\r' then "\\r"
    else if c == '\t' then "\\t"
    else if c == '\0' then "\\0"
    else if IsUnicodeEscaped(c) then "\\u{" + NatToDigits(c as int, 16) + "}"
    else [c]
  }

  function Escape(s: string): string
  {
    if |s| == 0 then "" else EscapeChar(s[0]) + Escape(s[1..])
  }

  /** `{:?}` of one string: the escaped text in double quotes. */
  function DebugString(s: string): string
  {
    "\"" + Escape(s) + "\""
  }

  function DebugItems(xs: seq<string>): string
  {
    if |xs| == 0 then ""
    else if |xs| == 1 then DebugString(xs[0])
    else DebugString(xs[0]) + ", " + DebugItems(xs[1..])
  }

  /** `{:?}` of a `Vec<String>`: `["a", "b"]`, or `[]` when empty. */
  function DebugList(xs: seq<string>): string
  {
    "[" + DebugItems(xs) + "]"
  }

  /**
   * Decodes the escape that follows a backslash: the character it stands for and how
   * many characters of `s` it took. Only the escapes `EscapeChar` writes are accepted:
   * `\u{..}` holds lower-case hexadecimal without a leading zero, for a character that has
   * no short escape.
   */
  function DecodeEscape(s: string): (r: Option<(char, nat)>)
    ensures r.Some? ==> 1 <= r.value.1 <= |s|
  {
    if |s| == 0 then None
    else if s[0] == '"' then Some(('"', 1))
    else if s[0] == '\\' then Some(('\\', 1))
    else if s[0] == 'n' then Some(('\n', 1))
    else if s[0] == 'r' then Some(('\r', 1))
    else if s[0] == 't' then Some(('\t', 1))
    else if s[0] == '0' then Some(('\0', 1))
    else if s[0] == 'u' && |s| >= 2 && s[1] == '{' then
      var j := IndexOf(s[2..], '}');
      if j == |s| - 2 then None
      else
        var h := s[2..2 + j];
        if |h| > 1 && h[0] == '0' then None
        else match ParseDigits(h, 16)
          case None => None
          case Some(v) =>
            if (v < 0x20 || v == 0x7f) && IsUnicodeEscaped(v as char) then Some((v as char, j + 3)) else None
    else None
  }

  /**
   * Reads a quoted string's body up to its closing quote: the text and what follows it.
   * A character that `{:?}` escapes is refused when it appears raw.
   */
  function Unescape(s: string): (r: Option<(string, string)>)
    ensures r.Some? ==> |r.value.1| < |s|
    decreases |s|
  {
    if |s| == 0 then None
    else if s[0] == '"' then Some(("", s[1..]))
    else if s[0] == '\\' then
      match DecodeEscape(s[1..])
      case None => None
      case Some((c, used)) =>
        match Unescape(s[1 + used..])
        case None => None
        case Some((x, rest)) => Some(([c] + x, rest))
    else if EscapeChar(s[0]) != [s[0]] then None
    else
      match Unescape(s[1..])
      case None => None
      case Some((x, rest)) => Some(([s[0]] + x, rest))
  }

  /** Reads `"a", "b"]`, the items of a debug list after its opening bracket. */
  function ParseItems(s: string): Option<seq<string>>
    decreases |s|
  {
    if |s| == 0 || s[0] != '"' then None
    else match Unescape(s[1..])
      case None => None
      case Some((x, rest)) =>
        if rest == "]" then Some([x])
        else if |rest| >= 2 && rest[0] == ',' && rest[1] == ' ' then
          match ParseItems(rest[2..])
          case None => None
          case Some(tail) => Some([x] + tail)
        else None
  }

  /** Reads back the text `DebugList` writes. */
  function ParseDebugList(s: string): Option<seq<string>>
  {
    if s == "[]" then Some([])
    else if |s| > 0 && s[0] == '[' then ParseItems(s[1..])
    else None
  }

  /** A `\u{..}` escape decodes to the control character whose hexadecimal code it holds. */
  lemma DecodeUnicodeEscape(c: char, tail: string)
    requires IsUnicodeEscaped(c)
    ensures var h := NatToDigits(c as int, 16);
      DecodeEscape("u{" + h + "}" + tail) == Some((c, |h| + 3))
  {
    var h := NatToDigits(c as int, 16);
    var s := "u{" + h + "}" + tail;
    NatToDigitsLeading(c as int, 16);
    assert '}' !in h by {
      NatToDigitsAreDigits(c as int, 16);
      forall k | 0 <= k < |h| ensures h[k] != '}' {
        assert IsDigitIn(h[k], 16);
      }
    }
    assert s[2..] == h + "}" + tail;
    IndexOfAfterPiece(h, '}', tail);
    assert s[2..2 + |h|] == h;
    ParseNatToDigits(c as int, 16);
  }

  lemma DecodeEscapeChar(c: char, tail: string)
    requires EscapeChar(c) != [c]
    ensures EscapeChar(c)[0] == '\\'
    ensures DecodeEscape(EscapeChar(c)[1..] + tail) == Some((c, |EscapeChar(c)| - 1))
  {
    if IsUnicodeEscaped(c) && c !in "\"\\" {
      var h := NatToDigits(c as int, 16);
      assert EscapeChar(c)[1..] + tail == "u{" + h + "}" + tail;
      DecodeUnicodeEscape(c, tail);
    }
  }

  /** An escape `DecodeEscape` accepts is the one `EscapeChar` writes for its character. */
  lemma DecodeEscapeCanonical(s: string)
    requires DecodeEscape(s).Some?
    ensures var (c, used) := DecodeEscape(s).value;
      EscapeChar(c) != [c] && EscapeChar(c) == "\\" + s[..used]
  {
    var (c, used) := DecodeEscape(s).value;
    if s[0] == 'u' {
      var j := IndexOf(s[2..], '}');
      var h := s[2..2 + j];
      ParseDigitsCanonical(h, 16);
      assert h == NatToDigits(c as int, 16);
      assert s[..used] == "u{" + h + "}";
    }
  }

  /** Decoding one written character, whatever follows it. */
  lemma UnescapeStep(c: char, tail: string)
    ensures Unescape(EscapeChar(c) + tail) ==
      match Unescape(tail)
      case None => None
      case Some((x, rest)) => Some(([c] + x, rest))
  {
    var e := EscapeChar(c);
    var s := e + tail;
    if e == [c] {
      assert s[1..] == tail;
    } else {
      DecodeEscapeChar(c, tail);
      assert s[1..] == e[1..] + tail;
      assert s[1 + (|e| - 1)..] == tail;
    }
  }

  /** Decoding the escaped body of a string, up to the closing quote, gives the string back. */
  lemma {:induction false} UnescapeEscape(x: string, rest: string)
    ensures Unescape(Escape(x) + "\"" + rest) == Some((x, rest))
  {
    if |x| == 0 {
      assert Escape(x) + "\"" + rest == "\"" + rest;
    } else {
      var tail := Escape(x[1..]) + "\"" + rest;
      assert Escape(x) + "\"" + rest == EscapeChar(x[0]) + tail;
      UnescapeStep(x[0], tail);
      UnescapeEscape(x[1..], rest);
      assert [x[0]] + x[1..] == x;
    }
  }

  /** Writing one more character in front of an escaped body. */
  lemma EscapeCons(c: char, x: string, rest: string)
    ensures EscapeChar(c) + (Escape(x) + "\"" + rest) == Escape([c] + x) + "\"" + rest
  {
    assert ([c] + x)[1..] == x;
    assert Escape([c] + x) == EscapeChar(c) + Escape(x);
  }

  /** A body `Unescape` accepts is exactly the escaped text of what it reads, then the closing quote. */
  lemma {:induction false} UnescapeCanonical(s: string)
    requires Unescape(s).Some?
    ensures s == Escape(Unescape(s).value.0) + "\"" + Unescape(s).value.1
    decreases |s|
  {
    if s[0] == '"' {
      assert s == "\"" + s[1..];
    } else if s[0] == '\\' {
      var d := DecodeEscape(s[1..]).value;
      DecodeEscapeCanonical(s[1..]);
      var after := s[1 + d.1..];
      UnescapeCanonical(after);
      var u := Unescape(after).value;
      assert Unescape(s).value == ([d.0] + u.0, u.1);
      assert s == EscapeChar(d.0) + after by {
        assert s[..1 + d.1] == "\\" + s[1..][..d.1];
        assert s == s[..1 + d.1] + after;
      }
      EscapeCons(d.0, u.0, u.1);
    } else {
      UnescapeCanonical(s[1..]);
      var u := Unescape(s[1..]).value;
      assert Unescape(s).value == ([s[0]] + u.0, u.1);
      assert s == EscapeChar(s[0]) + s[1..];
      EscapeCons(s[0], u.0, u.1);
    }
  }

  lemma ParseItemsStep(x: string, after: string)
    ensures ParseItems("\"" + Escape(x) + "\"" + after) ==
      if after == "]" then Some([x])
      else if |after| >= 2 && after[0] == ',' && after[1] == ' ' then
        match ParseItems(after[2..])
        case None => None
        case Some(tail) => Some([x] + tail)
      else None
  {
    var s := "\"" + Escape(x) + "\"" + after;
    assert s[0] == '"' && s[1..] == Escape(x) + "\"" + after;
    UnescapeEscape(x, after);
  }

  lemma DebugItemsCons(xs: seq<string>)
    requires |xs| > 1
    ensures DebugItems(xs) + "]" == "\"" + Escape(xs[0]) + "\"" + (", " + (DebugItems(xs[1..]) + "]"))
  {
    var rest := DebugItems(xs[1..]);
    assert DebugItems(xs) == "\"" + Escape(xs[0]) + "\"" + ", " + rest;
    ConcatAssoc("\"" + Escape(xs[0]) + "\"", ", ", rest + "]");
    ConcatAssoc("\"" + Escape(xs[0]) + "\"" + ", ", rest, "]");
  }

  lemma {:induction false} ParseItemsRoundTrip(xs: seq<string>)
    requires |xs| > 0
    ensures ParseItems(DebugItems(xs) + "]") == Some(xs)
  {
    if |xs| == 1 {
      assert DebugItems(xs) + "]" == "\"" + Escape(xs[0]) + "\"" + "]";
      ParseItemsStep(xs[0], "]");
      assert [xs[0]] == xs;
    } else {
      var rest := DebugItems(xs[1..]) + "]";
      var after := ", " + rest;
      DebugItemsCons(xs);
      ParseItemsStep(xs[0], after);
      assert after[0] == ',' && after[1] == ' ' && after != "]" && after[2..] == rest;
      ParseItemsRoundTrip(xs[1..]);
      assert [xs[0]] + xs[1..] == xs;
    }
  }

  /** Items `ParseItems` accepts are exactly the text `DebugItems` writes for them, then the bracket. */
  lemma {:induction false} ParseItemsCanonical(s: string)
    requires ParseItems(s).Some?
    ensures s == DebugItems(ParseItems(s).value) + "]"
    decreases |s|
  {
    UnescapeCanonical(s[1..]);
    var u := Unescape(s[1..]).value;
    var x, rest := u.0, u.1;
    assert s == "\"" + s[1..];
    if rest == "]" {
      assert ParseItems(s).value == [x];
      assert s == "\"" + Escape(x) + "\"" + "]";
    } else {
      var tail := ParseItems(rest[2..]).value;
      ParseItemsCanonical(rest[2..]);
      assert ParseItems(s).value == [x] + tail;
      assert rest == ", " + (DebugItems(tail) + "]") by {
        assert rest == rest[..2] + rest[2..];
      }
      DebugItemsConsText(x, tail, rest);
    }
  }

  /** One more item in front of a non-empty list of items. */
  lemma DebugItemsConsText(x: string, tail: seq<string>, rest: string)
    requires |tail| > 0 && rest == ", " + (DebugItems(tail) + "]")
    ensures "\"" + (Escape(x) + "\"" + rest) == DebugItems([x] + tail) + "]"
  {
    var xs := [x] + tail;
    assert xs[0] == x && xs[1..] == tail;
    DebugItemsCons(xs);
    ConcatAssoc("\"", Escape(x) + "\"", rest);
    ConcatAssoc("\"", Escape(x), "\"");
  }

  /** A text `ParseDebugList` accepts is exactly the `{:?}` text of the list it reads. */
  lemma ParseDebugListCanonical(s: string)
    requires ParseDebugList(s).Some?
    ensures s == DebugList(ParseDebugList(s).value)
  {
    if s != "[]" {
      ParseItemsCanonical(s[1..]);
      assert s == "[" + s[1..];
    }
  }

  /** The `{:?}` rendering of a list of arguments loses nothing: it reads back to the list. */
  lemma DebugListRoundTrip(xs: seq<string>)
    ensures ParseDebugList(DebugList(xs)) == Some(xs)
  {
    var s := DebugList(xs);
    if |xs| > 0 {
      assert s[1] == '"';
      assert s[1..] == DebugItems(xs) + "]";
      ParseItemsRoundTrip(xs);
    }
  }

  // ------------------------------------------------------------ dispatch

  /** The top-level command; the only subcommand wired in is `json`. */
  datatype Command<M> = Json(jsonMethod: M)

  /** Holds the parsed command and hands it to its handler. */
  datatype CommandHandler<M> = CommandHandler(command: Command<M>)
  {
    /** Forwards a `json` command to the JSON handler, whose result is returned as it is. */
    function Handle(handleJson: M -> Result<string, CommandHandlerError>): (r: Result<string, CommandHandlerError>)
      ensures r == handleJson(command.jsonMethod)
    {
      match command
      case Json(jsonMethod) => handleJson(jsonMethod)
    }
  }
}
