/**
 The configuration lexer, over bytes.  The specification maps the unread bytes to one token and the
 bytes after it; the class keeps an offset and a terminal error as the program does.
 */
module ConfigLexer {
  import opened Basics
  import opened Utf8

  const MAX_INPUT_BYTES := 1024 * 1024

  const BYTE_ORDER_MARK: CodePoint := 0xFEFF

  const TAB: Byte := 0x09
  const LF: Byte := 0x0A
  const CR: Byte := 0x0D
  const SPACE: Byte := 0x20
  const QUOTE: Byte := 0x22
  const HASH: Byte := 0x23
  const HYPHEN: Byte := 0x2D
  const SEMICOLON: Byte := 0x3B
  const BACKSLASH: Byte := 0x5C
  const UNDERSCORE: Byte := 0x5F
  const LOWER_N: Byte := 0x6E
  const LOWER_R: Byte := 0x72
  const LOWER_T: Byte := 0x74
  const LEFT_BRACE: Byte := 0x7B
  const RIGHT_BRACE: Byte := 0x7D

  type Bytes = seq<Byte>

  const TRUE: Bytes := [0x74, 0x72, 0x75, 0x65]
  const FALSE: Bytes := [0x66, 0x61, 0x6C, 0x73, 0x65]

  datatype Token =
    | Identifier(lexeme: Bytes)
    | StringLiteral(decoded: Bytes)
    | IntegerLiteral(lexeme: Bytes)
    | BooleanLiteral(lexeme: Bytes)
    | LeftBrace | RightBrace | Semicolon | EndOfInput

  datatype LexError =
    | InputTooLarge | InvalidUtf8 | UnexpectedByteOrderMark | EmbeddedNull | UnexpectedCharacter
    | InvalidEscapeSequence | UnterminatedString | LineBreakInString

  predicate IsDigit(b: Byte) {
    0x30 <= b <= 0x39
  }

  predicate IsIdentifierStart(b: Byte) {
    0x41 <= b <= 0x5A || 0x61 <= b <= 0x7A || b == UNDERSCORE
  }

  predicate IsIdentifierContinuation(b: Byte) {
    IsIdentifierStart(b) || IsDigit(b) || b == HYPHEN
  }

  /** The digits of ASCII. */
  lemma DigitsExactly(b: Byte)
    ensures IsDigit(b) <==> b in {0x30, 0x31, 0x32, 0x33, 0x34, 0x35, 0x36, 0x37, 0x38, 0x39}
  {
  }

  /** Its letters, and the underscore. */
  lemma IdentifierStartsExactly(b: Byte)
    ensures IsIdentifierStart(b) <==> b in {
      0x41, 0x42, 0x43, 0x44, 0x45, 0x46, 0x47, 0x48, 0x49, 0x4A, 0x4B, 0x4C, 0x4D,
      0x4E, 0x4F, 0x50, 0x51, 0x52, 0x53, 0x54, 0x55, 0x56, 0x57, 0x58, 0x59, 0x5A,
      0x61, 0x62, 0x63, 0x64, 0x65, 0x66, 0x67, 0x68, 0x69, 0x6A, 0x6B, 0x6C, 0x6D,
      0x6E, 0x6F, 0x70, 0x71, 0x72, 0x73, 0x74, 0x75, 0x76, 0x77, 0x78, 0x79, 0x7A, 0x5F}
  {
  }

  /** An identifier goes on with both of them and hyphens. */
  lemma ContinuationsExactly(b: Byte)
    ensures IsIdentifierContinuation(b) <==> IsIdentifierStart(b) || IsDigit(b) || b == 0x2D
  {
  }

  predicate IsLineBreak(b: Byte) {
    b == CR || b == LF
  }

  predicate IsSpace(b: Byte) {
    b == SPACE || b == TAB || IsLineBreak(b)
  }

  predicate HasByteOrderMark(s: Bytes) {
    |s| >= 3 && s[0] == 0xEF && s[1] == 0xBB && s[2] == 0xBF
  }

  // ---- Specification ----

  /** The first character of non-structural text: its length, or why it is not allowed there. */
  function Character(s: Bytes): (r: Result<nat, LexError>)
    requires s != []
    ensures r.Ok? ==> 1 <= r.value <= |s|
  {
    if s[0] == 0 then Err(EmbeddedNull)
    else if HasByteOrderMark(s) then Err(UnexpectedByteOrderMark)
    else if Decode(s).None? then Err(InvalidUtf8)
    else Ok(Decode(s).value.byteCount)
  }

  /** What follows a comment, from its line break on. */
  function AfterComment(s: Bytes): (r: Result<Bytes, LexError>)
    ensures r.Ok? ==> |r.value| <= |s|
    decreases |s|
  {
    if s == [] || IsLineBreak(s[0]) then Ok(s)
    else
      var c := Character(s);
      if c.Err? then Err(c.error) else AfterComment(s[c.value..])
  }

  function AfterTrivia(s: Bytes): (r: Result<Bytes, LexError>)
    ensures r.Ok? ==> |r.value| <= |s|
    decreases |s|
  {
    if s == [] then Ok(s)
    else if IsSpace(s[0]) then AfterTrivia(s[1..])
    else if s[0] != HASH then Ok(s)
    else
      var rest := AfterComment(s[1..]);
      if rest.Err? then rest else AfterTrivia(rest.value)
  }

  /** Length of the longest prefix of bytes of a class. */
  function Span(s: Bytes, class_: Byte -> bool): (n: nat)
    ensures n <= |s|
  {
    if s == [] || !class_(s[0]) then 0 else 1 + Span(s[1..], class_)
  }

  function Unescaped(b: Byte): Option<Byte> {
    if b == QUOTE then Some(QUOTE)
    else if b == BACKSLASH then Some(BACKSLASH)
    else if b == LOWER_N then Some(LF)
    else if b == LOWER_R then Some(CR)
    else if b == LOWER_T then Some(TAB)
    else None
  }

  /** One character of a string literal: what it stands for and what follows it. */
  function StringCharacter(s: Bytes): (r: Result<(Bytes, Bytes), LexError>)
    requires s != []
    ensures r.Ok? ==> |r.value.1| < |s|
  {
    if IsLineBreak(s[0]) then Err(LineBreakInString)
    else if s[0] == BACKSLASH then Escape(s[1..])
    else
      var c := Character(s);
      if c.Err? then Err(c.error) else Ok((s[..c.value], s[c.value..]))
  }

  function Escape(s: Bytes): (r: Result<(Bytes, Bytes), LexError>)
    ensures r.Ok? ==> |r.value.1| < |s|
  {
    if s == [] then Err(InvalidEscapeSequence)
    else if IsLineBreak(s[0]) then Err(LineBreakInString)
    else
      var c := Character(s);
      if c.Err? then Err(c.error)
      else if Unescaped(s[0]).None? then Err(InvalidEscapeSequence)
      else Ok(([Unescaped(s[0]).value], s[1..]))
  }

  /** The rest of a string literal after its opening quote: the decoded text and what follows. */
  function StringRest(s: Bytes): (r: Result<(Bytes, Bytes), LexError>)
    ensures r.Ok? ==> |r.value.1| < |s|
    decreases |s|
  {
    if s == [] then Err(UnterminatedString)
    else if s[0] == QUOTE then Ok(([], s[1..]))
    else
      var c := StringCharacter(s);
      if c.Err? then Err(c.error) else Prepend(c.value.0, StringRest(c.value.1))
  }

  function Prepend(text: Bytes, r: Result<(Bytes, Bytes), LexError>): Result<(Bytes, Bytes), LexError> {
    if r.Err? then r else Ok((text + r.value.0, r.value.1))
  }

  function Word(lexeme: Bytes): Token {
    if lexeme == TRUE || lexeme == FALSE then BooleanLiteral(lexeme) else Identifier(lexeme)
  }

  function Punctuation(b: Byte): Option<Token> {
    if b == LEFT_BRACE then Some(LeftBrace)
    else if b == RIGHT_BRACE then Some(RightBrace)
    else if b == SEMICOLON then Some(Semicolon)
    else None
  }

  function LexHere(s: Bytes): (r: Result<(Token, Bytes), LexError>)
    ensures r.Ok? && r.value.0 != EndOfInput ==> |r.value.1| < |s|
  {
    if s == [] then Ok((EndOfInput, s))
    else if IsIdentifierStart(s[0]) then
      var n := Span(s, IsIdentifierContinuation); Ok((Word(s[..n]), s[n..]))
    else if IsDigit(s[0]) then
      var n := Span(s, IsDigit); Ok((IntegerLiteral(s[..n]), s[n..]))
    else if s[0] == QUOTE then
      var text := StringRest(s[1..]);
      if text.Err? then Err(text.error) else Ok((StringLiteral(text.value.0), text.value.1))
    else if Punctuation(s[0]).Some? then Ok((Punctuation(s[0]).value, s[1..]))
    else
      var c := Character(s);
      Err(if c.Err? then c.error else UnexpectedCharacter)
  }

  /** The next token of the unread bytes, and the bytes after it. */
  function Lex(s: Bytes): (r: Result<(Token, Bytes), LexError>)
    ensures r.Ok? && r.value.0 != EndOfInput ==> |r.value.1| < |s|
  {
    var rest := AfterTrivia(s);
    if rest.Err? then Err(rest.error) else LexHere(rest.value)
  }

  /** How far one ASCII character reaches; a carriage return takes a following line feed along. */
  function AsciiStep(s: Bytes): nat
    requires s != []
  {
    if s[0] == CR && |s| > 1 && s[1] == LF then 2 else 1
  }

  lemma MarkIsCodePoint(text: Bytes)
    ensures HasByteOrderMark(text) <==> Decode(text).Some? && Decode(text).value.value == BYTE_ORDER_MARK
  {
    MarkBytes();
    if HasByteOrderMark(text) {
      assert text == Encode(BYTE_ORDER_MARK) + text[3..];
      DecodeEncode(BYTE_ORDER_MARK, text[3..]);
    }
    if Decode(text).Some? && Decode(text).value.value == BYTE_ORDER_MARK {
      EncodeDecode(text);
      assert forall i :: 0 <= i < 3 ==> text[i] == Encode(BYTE_ORDER_MARK)[i];
    }
  }

  lemma MarkBytes()
    ensures IsScalarValue(BYTE_ORDER_MARK) && Encode(BYTE_ORDER_MARK) == [0xEF, 0xBB, 0xBF]
  {
    EncodesThree(BYTE_ORDER_MARK, 0xEF, 0xBB, 0xBF);
  }

  // ---- The object ----

  class ConfigLexer {
    const input: Bytes
    var offset: nat
    var terminalError: Option<LexError>

    ghost predicate Valid()
      reads this
    {
      offset <= |input|
    }

    ghost function Rest(): Bytes
      requires Valid()
      reads this
    {
      input[offset..]
    }

    /** A byte-order mark is skipped at the very start and nowhere else. */
    constructor (input: Bytes)
      ensures Valid() && terminalError == None && this.input == input
      ensures Rest() == if HasByteOrderMark(input) then input[3..] else input
    {
      this.input := input;
      offset, terminalError := if HasByteOrderMark(input) then 3 else 0, None;
    }

    /** Inputs over the size limit get no lexer. */
    static method Create(input: Bytes) returns (r: Result<ConfigLexer, LexError>)
      ensures r.Err? <==> |input| > MAX_INPUT_BYTES
      ensures r.Err? ==> r.error == InputTooLarge
      ensures r.Ok? ==> fresh(r.value) && r.value.Valid() && r.value.terminalError == None
      ensures r.Ok? ==> r.value.Rest() == if HasByteOrderMark(input) then input[3..] else input
    {
      if |input| > MAX_INPUT_BYTES {
        return Err(InputTooLarge);
      }
      var lexer := new ConfigLexer(input);
      return Ok(lexer);
    }

    /** One ASCII byte; a carriage return takes a following line feed along. */
    method AdvanceAscii()
      requires Valid() && offset < |input|
      modifies this`offset
      ensures Valid()
      ensures offset == old(offset) + AsciiStep(old(Rest()))
    {
      var current := input[offset];
      offset := offset + 1;
      if current == CR && offset < |input| && input[offset] == LF {
        offset := offset + 1;
      }
    }

    method CheckCharacter() returns (r: Result<nat, LexError>)
      requires Valid() && offset < |input|
      ensures r == Character(Rest())
    {
      if input[offset] == 0 {
        return Err(EmbeddedNull);
      }
      if HasByteOrderMark(input[offset..]) {
        return Err(UnexpectedByteOrderMark);
      }
      var scalar := DecodeOne(input[offset..]);
      return if scalar.None? then Err(InvalidUtf8) else Ok(scalar.value.byteCount);
    }

    method SkipComment() returns (error: Option<LexError>)
      requires Valid()
      modifies this`offset
      ensures Valid()
      ensures match AfterComment(old(Rest()))
        case Ok(rest) => error == None && Rest() == rest
        case Err(e) => error == Some(e)
    {
      while offset < |input| && !IsLineBreak(input[offset])
        invariant Valid() && AfterComment(Rest()) == AfterComment(old(Rest()))
        decreases |input| - offset
      {
        var c := CheckCharacter();
        if c.Err? {
          return Some(c.error);
        }
        CommentStep(Rest(), c.value);
        assert Rest()[c.value..] == input[offset + c.value..];
        offset := offset + c.value;
      }
      return None;
    }

    method SkipTrivia() returns (error: Option<LexError>)
      requires Valid()
      modifies this`offset
      ensures Valid()
      ensures match AfterTrivia(old(Rest()))
        case Ok(rest) => error == None && Rest() == rest
        case Err(e) => error == Some(e)
    {
      while offset < |input|
        invariant Valid() && AfterTrivia(Rest()) == AfterTrivia(old(Rest()))
        decreases |input| - offset
      {
        var b, here := input[offset], Rest();
        if IsSpace(b) {
          AdvanceAscii();
          SpaceSkipped(here, Rest());
          continue;
        }
        if b != HASH {
          return None;
        }
        AdvanceAscii();
        assert Rest() == here[1..];
        error := SkipComment();
        if error.Some? {
          return;
        }
      }
      return None;
    }

    method TakeSpan(class_: Byte -> bool) returns (lexeme: Bytes)
      requires Valid() && offset < |input| && class_(input[offset])
      modifies this`offset
      ensures Valid()
      ensures var n := Span(old(Rest()), class_); lexeme == old(Rest())[..n] && Rest() == old(Rest())[n..]
    {
      var start := offset;
      offset := offset + 1;
      assert old(Rest())[1..] == Rest();
      while offset < |input| && class_(input[offset])
        invariant Valid() && start < offset
        invariant Span(old(Rest()), class_) == offset - start + Span(Rest(), class_)
      {
        assert Rest()[1..] == input[offset + 1..];
        offset := offset + 1;
      }
      lexeme := input[start..offset];
    }

    method ConsumeEscape(decoded: Bytes) returns (r: Result<Bytes, LexError>)
      requires Valid() && offset < |input| && input[offset] == BACKSLASH
      modifies this`offset
      ensures Valid()
      ensures match Escape(old(Rest())[1..])
        case Ok(c) => r == Ok(decoded + c.0) && Rest() == c.1
        case Err(e) => r == Err(e)
    {
      offset := offset + 1;
      assert old(Rest())[1..] == Rest();
      if offset == |input| {
        return Err(InvalidEscapeSequence);
      }
      if IsLineBreak(input[offset]) {
        return Err(LineBreakInString);
      }
      var c := CheckCharacter();
      if c.Err? {
        return Err(c.error);
      }
      var meaning := Unescaped(input[offset]);
      if meaning.None? {
        return Err(InvalidEscapeSequence);
      }
      assert Rest()[1..] == input[offset + 1..];
      offset := offset + 1;
      return Ok(decoded + [meaning.value]);
    }

    method ConsumeStringCharacter(decoded: Bytes) returns (r: Result<Bytes, LexError>)
      requires Valid() && offset < |input|
      modifies this`offset
      ensures Valid()
      ensures match StringCharacter(old(Rest()))
        case Ok(c) => r == Ok(decoded + c.0) && Rest() == c.1
        case Err(e) => r == Err(e)
    {
      if IsLineBreak(input[offset]) {
        return Err(LineBreakInString);
      }
      if input[offset] == BACKSLASH {
        r := ConsumeEscape(decoded);
        return;
      }
      var c := CheckCharacter();
      if c.Err? {
        return Err(c.error);
      }
      r := Ok(decoded + input[offset..offset + c.value]);
      assert Rest()[..c.value] == input[offset..offset + c.value];
      assert Rest()[c.value..] == input[offset + c.value..];
      offset := offset + c.value;
    }

    method LexString() returns (r: Result<Bytes, LexError>)
      requires Valid() && offset < |input| && input[offset] == QUOTE
      modifies this`offset
      ensures Valid()
      ensures match StringRest(old(Rest())[1..])
        case Ok(text) => r == Ok(text.0) && Rest() == text.1
        case Err(e) => r == Err(e)
    {
      var decoded: Bytes := [];
      offset := offset + 1;
      ghost var all := StringRest(Rest());
      assert old(Rest())[1..] == Rest();
      PrependNothing(all);
      while offset < |input| && input[offset] != QUOTE
        invariant Valid() && all == Prepend(decoded, StringRest(Rest()))
        decreases |input| - offset
      {
        ghost var here := Rest();
        var step := ConsumeStringCharacter(decoded);
        if step.Err? {
          return Err(step.error);
        }
        PrependTwice(decoded, StringCharacter(here).value.0, StringRest(Rest()));
        decoded := step.value;
      }
      if offset == |input| {
        return Err(UnterminatedString);
      }
      assert Rest()[1..] == input[offset + 1..] && decoded + [] == decoded;
      offset := offset + 1;
      return Ok(decoded);
    }

    /** The token at the current byte, with trivia already skipped. */
    method LexToken() returns (r: Result<Token, LexError>)
      requires Valid()
      modifies this`offset
      ensures Valid()
      ensures match LexHere(old(Rest()))
        case Ok(t) => r == Ok(t.0) && Rest() == t.1
        case Err(e) => r == Err(e)
    {
      if offset == |input| {
        return Ok(EndOfInput);
      }
      var b := input[offset];
      if IsIdentifierStart(b) {
        var lexeme := TakeSpan(IsIdentifierContinuation);
        return Ok(Word(lexeme));
      }
      if IsDigit(b) {
        var lexeme := TakeSpan(IsDigit);
        return Ok(IntegerLiteral(lexeme));
      }
      if b == QUOTE {
        var text := LexString();
        return if text.Ok? then Ok(StringLiteral(text.value)) else Err(text.error);
      }
      if Punctuation(b).Some? {
        assert Rest()[1..] == input[offset + 1..];
        offset := offset + 1;
        return Ok(Punctuation(b).value);
      }
      var c := CheckCharacter();
      return Err(if c.Err? then c.error else UnexpectedCharacter);
    }

    /** The next token; after a failure the same error is reported for ever. */
    method Next() returns (r: Result<Token, LexError>)
      requires Valid()
      modifies this
      ensures Valid()
      ensures old(terminalError).Some? ==> unchanged(this) && r == Err(old(terminalError).value)
      ensures old(terminalError).None? ==> match Lex(old(Rest()))
        case Ok(t) => r == Ok(t.0) && Rest() == t.1 && terminalError.None?
        case Err(e) => r == Err(e) && terminalError == Some(e)
    {
      if terminalError.Some? {
        return Err(terminalError.value);
      }
      var trivia := SkipTrivia();
      if trivia.Some? {
        terminalError := trivia;
        return Err(trivia.value);
      }
      r := LexToken();
      if r.Err? {
        terminalError := Some(r.error);
      }
    }
  }

  lemma CommentStep(s: Bytes, n: nat)
    requires s != [] && !IsLineBreak(s[0]) && Character(s) == Ok(n)
    ensures AfterComment(s) == AfterComment(s[n..])
  {
  }

  /** Skipping a line break as one step or byte by byte makes no difference. */
  lemma SpaceSkipped(s: Bytes, after: Bytes)
    requires s != [] && IsSpace(s[0])
    requires after == s[1..] || (|s| >= 2 && s[1] == LF && after == s[2..])
    ensures AfterTrivia(after) == AfterTrivia(s)
  {
    if after != s[1..] {
      assert s[1..][1..] == s[2..];
    }
  }

  lemma PrependNothing(r: Result<(Bytes, Bytes), LexError>)
    ensures Prepend([], r) == r
  {
    if r.Ok? {
      assert [] + r.value.0 == r.value.0;
    }
  }

  lemma PrependTwice(a: Bytes, b: Bytes, r: Result<(Bytes, Bytes), LexError>)
    ensures Prepend(a, Prepend(b, r)) == Prepend(a + b, r)
  {
    if r.Ok? {
      assert a + (b + r.value.0) == (a + b) + r.value.0;
    }
  }
}
