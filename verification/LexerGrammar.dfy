/**
 The configuration language on its own terms: characters are Unicode scalars, tokens are spelled in a
 given way, and blanks and comments stand between them.  The lexer reads exactly what can be so written.
 */
module LexerGrammar {
  import opened Basics
  import opened Utf8
  import opened ConfigLexer

  // ---- Characters ----

  /** Every scalar but the null character and the byte-order mark. */
  predicate Allowed(v: CodePoint) {
    IsScalarValue(v) && v != 0 && v != BYTE_ORDER_MARK
  }

  predicate Begins(s: Bytes, v: CodePoint)
    requires IsScalarValue(v)
  {
    Encode(v) <= s
  }

  /** The first byte of a scalar is an ASCII byte only if the scalar is that character. */
  lemma FirstByte(v: CodePoint, b: Byte, rest: Bytes)
    requires IsScalarValue(v) && b < 0x80
    ensures Encode(v) != [] && (Encode(v) + rest)[0] == Encode(v)[0]
    ensures Encode(v)[0] == b <==> v == b as CodePoint
    ensures v == b as CodePoint ==> Encode(v) == [b]
  {
    DecodeEncode(v, []);
    EncodeDecode(Encode(v) + []);
    if Encode(v)[0] == b {
      var tail := Encode(v)[1..];
      assert Encode(v) + [] == [b] + tail;
      DecodeAscii(b, tail);
    }
  }

  lemma CharacterReads(v: CodePoint, rest: Bytes)
    requires Allowed(v)
    ensures Character(Encode(v) + rest) == Ok(|Encode(v)|)
    ensures (Encode(v) + rest)[|Encode(v)|..] == rest && (Encode(v) + rest)[..|Encode(v)|] == Encode(v)
  {
    FirstByte(v, 0, rest);
    DecodeEncode(v, rest);
    MarkIsCodePoint(Encode(v) + rest);
  }

  lemma CharacterWas(s: Bytes) returns (v: CodePoint)
    requires s != [] && Character(s).Ok?
    ensures Allowed(v) && Character(s).value == |Encode(v)| && Encode(v) == s[..|Encode(v)|]
    ensures s == Encode(v) + s[|Encode(v)|..]
  {
    EncodeDecode(s);
    v := Decode(s).value.value;
    MarkIsCodePoint(s);
    FirstByte(v, 0, s[|Encode(v)|..]);
    assert s == Encode(v) + s[|Encode(v)|..];
  }

  lemma BeginningDecodes(s: Bytes, v: CodePoint)
    requires IsScalarValue(v) && Begins(s, v)
    ensures Decode(s) == Some(DecodedScalar(v, |Encode(v)|))
  {
    DecodeEncode(v, s[|Encode(v)|..]);
    assert s == Encode(v) + s[|Encode(v)|..];
  }

  lemma NullBegins(s: Bytes)
    requires s != []
    ensures Begins(s, 0) <==> s[0] == 0
  {
    FirstByte(0, 0, []);
    assert s[0] == 0 ==> s[..1] == [0];
  }

  lemma MarkBegins(s: Bytes)
    ensures IsScalarValue(BYTE_ORDER_MARK) && (Begins(s, BYTE_ORDER_MARK) <==> HasByteOrderMark(s))
  {
    MarkBytes();
    if HasByteOrderMark(s) {
      assert s[..3] == [0xEF, 0xBB, 0xBF];
    }
  }

  /** What is wrong with a character: it is null, it is the mark, or no scalar begins here. */
  lemma CharacterFails(s: Bytes)
    requires s != []
    ensures Character(s) == Err(EmbeddedNull) <==> Begins(s, 0)
    ensures IsScalarValue(BYTE_ORDER_MARK)
    ensures Character(s) == Err(UnexpectedByteOrderMark) <==> Begins(s, BYTE_ORDER_MARK)
    ensures Character(s) == Err(InvalidUtf8) <==> forall v | IsScalarValue(v) :: !Begins(s, v)
    ensures Character(s).Err? ==> Character(s).error in {EmbeddedNull, UnexpectedByteOrderMark, InvalidUtf8}
  {
    NullBegins(s);
    MarkBegins(s);
    if v :| IsScalarValue(v) && Begins(s, v) {
      BeginningDecodes(s, v);
    } else if Decode(s).Some? {
      EncodeDecode(s);
      assert Begins(s, Decode(s).value.value);
    }
  }

  // ---- Comments ----

  predicate CommentText(cs: seq<CodePoint>) {
    forall i :: 0 <= i < |cs| ==> Allowed(cs[i]) && cs[i] != 0x0A && cs[i] != 0x0D
  }

  predicate AtLineEnd(rest: Bytes) {
    rest == [] || rest[0] == 0x0A || rest[0] == 0x0D
  }

  lemma OneMoreScalar(v: CodePoint, cs: seq<CodePoint>, rest: Bytes)
    requires IsScalarValue(v) && AllScalars(cs)
    ensures AllScalars([v] + cs) && EncodeAll([v] + cs) + rest == Encode(v) + (EncodeAll(cs) + rest)
  {
    assert ([v] + cs)[1..] == cs;
    Associative(Encode(v), EncodeAll(cs), rest);
  }

  lemma CommentGrows(v: CodePoint, cs: seq<CodePoint>)
    requires Allowed(v) && v != 0x0A && v != 0x0D && CommentText(cs)
    ensures CommentText([v] + cs)
  {
  }

  lemma CommentCharReads(v: CodePoint, more: Bytes)
    requires Allowed(v) && v != 0x0A && v != 0x0D
    ensures AfterComment(Encode(v) + more) == AfterComment(more)
  {
    CharacterReads(v, more);
    FirstByte(v, LF, more);
    FirstByte(v, CR, more);
  }

  lemma {:induction false} CommentReads(cs: seq<CodePoint>, rest: Bytes)
    requires CommentText(cs) && AtLineEnd(rest)
    ensures AllScalars(cs) && AfterComment(EncodeAll(cs) + rest) == Ok(rest)
    decreases |cs|
  {
    if cs == [] {
      assert EncodeAll(cs) + rest == rest;
    } else {
      CommentReads(cs[1..], rest);
      OneMoreScalar(cs[0], cs[1..], rest);
      assert [cs[0]] + cs[1..] == cs;
      CommentCharReads(cs[0], EncodeAll(cs[1..]) + rest);
    }
  }

  /** The next character of a comment, and the comment after it. */
  lemma CommentStep(s: Bytes) returns (v: CodePoint, tail: Bytes)
    requires s != [] && !IsLineBreak(s[0]) && AfterComment(s).Ok?
    ensures Allowed(v) && v != 0x0A && v != 0x0D
    ensures s == Encode(v) + tail && |tail| < |s| && AfterComment(tail) == AfterComment(s)
  {
    v := CharacterWas(s);
    tail := s[|Encode(v)|..];
    FirstByte(v, LF, tail);
    FirstByte(v, CR, tail);
  }

  lemma {:induction false} CommentWas(s: Bytes) returns (cs: seq<CodePoint>)
    requires AfterComment(s).Ok?
    ensures CommentText(cs) && AllScalars(cs) && AtLineEnd(AfterComment(s).value)
    ensures s == EncodeAll(cs) + AfterComment(s).value
    decreases |s|
  {
    cs := [];
    if s == [] || IsLineBreak(s[0]) {
      assert s == [] + s;
    } else {
      var v, tail := CommentStep(s);
      var rest := CommentWas(tail);
      OneMoreScalar(v, rest, AfterComment(s).value);
      CommentGrows(v, rest);
      cs := [v] + rest;
    }
  }

  // ---- Blanks and comments ----

  datatype Gap = Blank(b: Byte) | Comment(text: seq<CodePoint>) {
    predicate Ok() {
      match this
      case Blank(b) => b == 0x20 || b == 0x09 || b == 0x0A || b == 0x0D
      case Comment(text) => CommentText(text)
    }

    ghost function Text(): Bytes
      requires Ok()
    {
      match this
      case Blank(b) => [b]
      case Comment(text) => assert AllScalars(text); [HASH] + EncodeAll(text)
    }
  }

  predicate AllOk(gaps: seq<Gap>) {
    forall i :: 0 <= i < |gaps| ==> gaps[i].Ok()
  }

  ghost function GapsText(gaps: seq<Gap>): Bytes
    requires AllOk(gaps)
  {
    if gaps == [] then [] else gaps[0].Text() + GapsText(gaps[1..])
  }

  /** These gaps stand before `body`: every comment is ended by a line break or by the end of the text. */
  ghost predicate StandBefore(gaps: seq<Gap>, body: Bytes) {
    && AllOk(gaps)
    && (gaps == [] ||
          ((gaps[0].Comment? ==> AtLineEnd(GapsText(gaps[1..]) + body)) && StandBefore(gaps[1..], body)))
  }

  /** Neither a blank nor a comment. */
  predicate IsBody(body: Bytes) {
    body == [] || (!IsSpace(body[0]) && body[0] != HASH)
  }

  /** One gap is skipped. */
  lemma GapRead(gap: Gap, more: Bytes)
    requires gap.Ok() && (gap.Comment? ==> AtLineEnd(more))
    ensures AfterTrivia(gap.Text() + more) == AfterTrivia(more)
  {
    match gap
    case Blank(b) => assert ([b] + more)[1..] == more;
    case Comment(text) =>
      CommentReads(text, more);
      Associative([HASH], EncodeAll(text), more);
      assert ([HASH] + (EncodeAll(text) + more))[1..] == EncodeAll(text) + more;
  }

  lemma {:induction false} GapsRead(gaps: seq<Gap>, body: Bytes)
    requires StandBefore(gaps, body) && IsBody(body)
    ensures AfterTrivia(GapsText(gaps) + body) == Ok(body)
    decreases |gaps|
  {
    if gaps == [] {
      assert GapsText(gaps) + body == body;
    } else {
      GapsRead(gaps[1..], body);
      Associative(gaps[0].Text(), GapsText(gaps[1..]), body);
      GapRead(gaps[0], GapsText(gaps[1..]) + body);
    }
  }

  lemma OneMoreGap(gap: Gap, gaps: seq<Gap>, body: Bytes)
    requires gap.Ok() && StandBefore(gaps, body)
    requires gap.Comment? ==> AtLineEnd(GapsText(gaps) + body)
    ensures StandBefore([gap] + gaps, body) && GapsText([gap] + gaps) + body == gap.Text() + (GapsText(gaps) + body)
  {
    assert ([gap] + gaps)[1..] == gaps;
    Associative(gap.Text(), GapsText(gaps), body);
  }

  /** The gap at the start, if there is one, and what follows it. */
  lemma GapWas(s: Bytes) returns (gap: Gap, more: Bytes)
    requires AfterTrivia(s).Ok? && !IsBody(s)
    ensures gap.Ok() && s == gap.Text() + more && |more| < |s| && AfterTrivia(more) == AfterTrivia(s)
    ensures gap.Comment? ==> AtLineEnd(more)
  {
    assert s == [s[0]] + s[1..];
    if IsSpace(s[0]) {
      gap, more := Blank(s[0]), s[1..];
    } else {
      var cs := CommentWas(s[1..]);
      gap, more := Comment(cs), AfterComment(s[1..]).value;
      Associative([HASH], EncodeAll(cs), more);
    }
  }

  lemma {:induction false} GapsWere(s: Bytes) returns (gaps: seq<Gap>)
    requires AfterTrivia(s).Ok?
    ensures StandBefore(gaps, AfterTrivia(s).value) && IsBody(AfterTrivia(s).value)
    ensures s == GapsText(gaps) + AfterTrivia(s).value
    decreases |s|
  {
    gaps := [];
    if IsBody(s) {
      assert AfterTrivia(s) == Ok(s) && s == [] + s;
    } else {
      var gap, more := GapWas(s);
      var rest := GapsWere(more);
      OneMoreGap(gap, rest, AfterTrivia(s).value);
      gaps := [gap] + rest;
    }
  }

  // ---- Strings ----

  /** A character of a string, as it is or escaped. */
  datatype StringChar = Itself(v: CodePoint) | Escaped(k: nat) {
    predicate Ok() {
      match this
      case Itself(v) => Allowed(v) && v != 0x0A && v != 0x0D && v != 0x22 && v != 0x5C
      case Escaped(k) => k < 5
    }

    function Text(): Bytes
      requires Ok()
    {
      match this
      case Itself(v) => Encode(v)
      case Escaped(k) => [0x5C, ESCAPES[k]]
    }

    function Meaning(): Bytes
      requires Ok()
    {
      match this
      case Itself(v) => Encode(v)
      case Escaped(k) => [MEANINGS[k]]
    }
  }

  /** What stands after a backslash, and what it stands for: quote, backslash, line feed, return and tab. */
  const ESCAPES: Bytes := [0x22, 0x5C, 0x6E, 0x72, 0x74]
  const MEANINGS: Bytes := [0x22, 0x5C, 0x0A, 0x0D, 0x09]

  lemma EscapesExactly(b: Byte)
    ensures forall k :: 0 <= k < 5 ==> Unescaped(ESCAPES[k]) == Some(MEANINGS[k])
    ensures Unescaped(b).Some? <==> b in ESCAPES
  {
    if Unescaped(b).Some? {
      assert b == ESCAPES[0] || b == ESCAPES[1] || b == ESCAPES[2] || b == ESCAPES[3] || b == ESCAPES[4];
    }
  }

  predicate StringOk(cs: seq<StringChar>) {
    forall i :: 0 <= i < |cs| ==> cs[i].Ok()
  }

  function StringText(cs: seq<StringChar>): Bytes
    requires StringOk(cs)
  {
    if cs == [] then [] else cs[0].Text() + StringText(cs[1..])
  }

  function StringMeaning(cs: seq<StringChar>): Bytes
    requires StringOk(cs)
  {
    if cs == [] then [] else cs[0].Meaning() + StringMeaning(cs[1..])
  }

  lemma StringCharReads(c: StringChar, rest: Bytes)
    requires c.Ok()
    ensures StringCharacter(c.Text() + rest) == Ok((c.Meaning(), rest)) && (c.Text() + rest)[0] != QUOTE
  {
    match c
    case Itself(v) =>
      CharacterReads(v, rest);
      FirstByte(v, LF, rest);
      FirstByte(v, CR, rest);
      FirstByte(v, QUOTE, rest);
      FirstByte(v, BACKSLASH, rest);
    case Escaped(k) =>
      EscapesExactly(ESCAPES[k]);
      var s := [ESCAPES[k]] + rest;
      assert (c.Text() + rest)[1..] == s && s[1..] == rest;
      DecodeAscii(ESCAPES[k], rest);
      MarkIsCodePoint(s);
  }

  lemma StringCharWas(s: Bytes) returns (c: StringChar)
    requires s != [] && s[0] != QUOTE && StringCharacter(s).Ok?
    ensures c.Ok() && s == c.Text() + StringCharacter(s).value.1 && StringCharacter(s).value.0 == c.Meaning()
  {
    if s[0] == BACKSLASH {
      EscapesExactly(s[1]);
      var k :| 0 <= k < 5 && ESCAPES[k] == s[1];
      c := Escaped(k);
      assert s == [BACKSLASH, s[1]] + s[1..][1..];
    } else {
      var v := CharacterWas(s);
      var tail := s[|Encode(v)|..];
      FirstByte(v, LF, tail);
      FirstByte(v, CR, tail);
      FirstByte(v, QUOTE, tail);
      FirstByte(v, BACKSLASH, tail);
      c := Itself(v);
    }
  }

  lemma {:induction false} StringReads(cs: seq<StringChar>, rest: Bytes)
    requires StringOk(cs)
    ensures StringRest(StringText(cs) + ([QUOTE] + rest)) == Ok((StringMeaning(cs), rest))
    decreases |cs|
  {
    var tail := [QUOTE] + rest;
    if cs == [] {
      assert StringText(cs) + tail == tail && tail[1..] == rest;
    } else {
      var more := StringText(cs[1..]) + tail;
      assert StringText(cs) + tail == cs[0].Text() + more;
      StringCharReads(cs[0], more);
      StringReads(cs[1..], rest);
    }
  }

  lemma OneMoreChar(c: StringChar, cs: seq<StringChar>, tail: Bytes)
    requires c.Ok() && StringOk(cs)
    ensures StringOk([c] + cs) && StringMeaning([c] + cs) == c.Meaning() + StringMeaning(cs)
    ensures StringText([c] + cs) + tail == c.Text() + (StringText(cs) + tail)
  {
    assert ([c] + cs)[1..] == cs;
    Associative(c.Text(), StringText(cs), tail);
  }

  lemma {:induction false} StringWas(s: Bytes) returns (cs: seq<StringChar>)
    requires StringRest(s).Ok?
    ensures StringOk(cs) && StringRest(s).value.0 == StringMeaning(cs)
    ensures s == StringText(cs) + ([QUOTE] + StringRest(s).value.1)
    decreases |s|
  {
    cs := [];
    if s[0] == QUOTE {
      assert s == [] + ([QUOTE] + s[1..]);
    } else {
      var c := StringCharWas(s);
      var rest := StringWas(StringCharacter(s).value.1);
      OneMoreChar(c, rest, [QUOTE] + StringRest(s).value.1);
      cs := [c] + rest;
    }
  }

  /** A string literal is read exactly when its characters can be written so, and means what they mean. */
  lemma StringsExactly(s: Bytes, decoded: Bytes, rest: Bytes)
    ensures StringRest(s) == Ok((decoded, rest)) <==>
      exists cs :: StringOk(cs) && decoded == StringMeaning(cs) && s == StringText(cs) + ([QUOTE] + rest)
  {
    if StringRest(s) == Ok((decoded, rest)) {
      var cs := StringWas(s);
    }
    if cs :| StringOk(cs) && decoded == StringMeaning(cs) && s == StringText(cs) + ([QUOTE] + rest) {
      StringReads(cs, rest);
    }
  }

  /** The first character that is not allowed is what a failing string is blamed on. */
  lemma {:induction false} StringFailsAt(cs: seq<StringChar>, bad: Bytes)
    requires StringOk(cs)
    ensures bad == [] ==> StringRest(StringText(cs) + bad) == Err(UnterminatedString)
    ensures bad != [] && bad[0] != QUOTE && StringCharacter(bad).Err? ==>
      StringRest(StringText(cs) + bad) == Err(StringCharacter(bad).error)
    decreases |cs|
  {
    if cs == [] {
      assert StringText(cs) + bad == bad;
    } else {
      var more := StringText(cs[1..]) + bad;
      assert StringText(cs) + bad == cs[0].Text() + more;
      StringCharReads(cs[0], more);
      StringFailsAt(cs[1..], bad);
    }
  }

  lemma StringCharacterFails(bad: Bytes)
    requires bad != []
    ensures bad[0] == 0x0A || bad[0] == 0x0D ==> StringCharacter(bad) == Err(LineBreakInString)
    ensures bad == [0x5C] ==> StringCharacter(bad) == Err(InvalidEscapeSequence)
    ensures |bad| > 1 && bad[0] == 0x5C ==>
      StringCharacter(bad) ==
        if bad[1] == 0x0A || bad[1] == 0x0D then Err(LineBreakInString)
        else if Character(bad[1..]).Err? then Err(Character(bad[1..]).error)
        else if bad[1] !in ESCAPES then Err(InvalidEscapeSequence)
        else Ok(([Unescaped(bad[1]).value], bad[2..]))
    ensures bad[0] !in {0x0A, 0x0D, 0x5C} && Character(bad).Err? ==> StringCharacter(bad) == Err(Character(bad).error)
  {
    if |bad| > 1 {
      EscapesExactly(bad[1]);
      assert bad[1..][1..] == bad[2..];
    }
  }

  // ---- Tokens ----

  predicate AllIn(s: Bytes, class_: Byte -> bool) {
    forall i :: 0 <= i < |s| ==> class_(s[i])
  }

  lemma {:induction false} SpanReads(word: Bytes, rest: Bytes, class_: Byte -> bool)
    requires AllIn(word, class_) && (rest == [] || !class_(rest[0]))
    ensures Span(word + rest, class_) == |word|
    ensures (word + rest)[..|word|] == word && (word + rest)[|word|..] == rest
    decreases |word|
  {
    if word == [] {
      assert word + rest == rest;
    } else {
      SpanReads(word[1..], rest, class_);
      assert (word + rest)[1..] == word[1..] + rest;
    }
  }

  lemma {:induction false} SpanWas(s: Bytes, class_: Byte -> bool)
    ensures var n := Span(s, class_); AllIn(s[..n], class_) && (s[n..] == [] || !class_(s[n..][0]))
    decreases |s|
  {
    if s != [] && class_(s[0]) {
      SpanWas(s[1..], class_);
      var n := Span(s[1..], class_);
      assert s[..n + 1] == [s[0]] + s[1..][..n] && s[n + 1..] == s[1..][n..];
    }
  }

  /** A word that cannot go on. */
  ghost predicate IsWord(word: Bytes, s: Bytes, rest: Bytes) {
    && s == word + rest && word != [] && IsIdentifierStart(word[0]) && AllIn(word, IsIdentifierContinuation)
    && (rest == [] || !IsIdentifierContinuation(rest[0]))
  }

  /** `s` starts with a spelling of the token, and `rest` follows it. */
  ghost predicate Spells(t: Token, s: Bytes, rest: Bytes) {
    match t
    case EndOfInput => s == [] && rest == []
    case Identifier(word) => IsWord(word, s, rest) && word != TRUE && word != FALSE
    case BooleanLiteral(word) => IsWord(word, s, rest) && (word == TRUE || word == FALSE)
    case IntegerLiteral(digits) =>
      s == digits + rest && digits != [] && AllIn(digits, IsDigit) && (rest == [] || !IsDigit(rest[0]))
    case StringLiteral(decoded) =>
      exists cs :: StringOk(cs) && decoded == StringMeaning(cs) && s == [0x22] + (StringText(cs) + ([0x22] + rest))
    case LeftBrace => s == [0x7B] + rest
    case RightBrace => s == [0x7D] + rest
    case Semicolon => s == [0x3B] + rest
  }

  lemma SpelledIsBody(t: Token, s: Bytes, rest: Bytes)
    requires Spells(t, s, rest)
    ensures IsBody(s)
  {
    match t
    case Identifier(word) => assert s[0] == word[0];
    case BooleanLiteral(word) => assert s[0] == word[0];
    case IntegerLiteral(digits) => assert s[0] == digits[0];
    case _ =>
  }

  lemma WordReads(word: Bytes, s: Bytes, rest: Bytes)
    requires IsWord(word, s, rest)
    ensures LexHere(s) == Ok((Word(word), rest))
  {
    assert s[0] == word[0];
    SpanReads(word, rest, IsIdentifierContinuation);
  }

  lemma SpelledReads(t: Token, s: Bytes, rest: Bytes)
    requires Spells(t, s, rest)
    ensures LexHere(s) == Ok((t, rest))
  {
    match t
    case EndOfInput =>
    case Identifier(word) => WordReads(word, s, rest);
    case BooleanLiteral(word) => WordReads(word, s, rest);
    case IntegerLiteral(digits) =>
      assert s[0] == digits[0];
      SpanReads(digits, rest, IsDigit);
    case StringLiteral(decoded) =>
      var cs :| StringOk(cs) && decoded == StringMeaning(cs) && s == [0x22] + (StringText(cs) + ([0x22] + rest));
      assert s[1..] == StringText(cs) + ([QUOTE] + rest);
      StringReads(cs, rest);
    case _ => assert s[1..] == rest;
  }

  lemma WordWas(s: Bytes)
    requires s != [] && IsIdentifierStart(s[0])
    ensures var n := Span(s, IsIdentifierContinuation); IsWord(s[..n], s, s[n..])
  {
    SpanWas(s, IsIdentifierContinuation);
    var n := Span(s, IsIdentifierContinuation);
    assert n > 0 && s == s[..n] + s[n..];
  }

  lemma NumberWas(s: Bytes)
    requires s != [] && IsDigit(s[0])
    ensures var n := Span(s, IsDigit); Spells(IntegerLiteral(s[..n]), s, s[n..])
  {
    SpanWas(s, IsDigit);
    var n := Span(s, IsDigit);
    assert n > 0 && s == s[..n] + s[n..];
  }

  lemma TextWas(s: Bytes)
    requires s != [] && s[0] == QUOTE && StringRest(s[1..]).Ok?
    ensures Spells(StringLiteral(StringRest(s[1..]).value.0), s, StringRest(s[1..]).value.1)
  {
    var cs := StringWas(s[1..]);
    assert s == [s[0]] + s[1..];
  }

  lemma ReadWasSpelled(s: Bytes)
    requires LexHere(s).Ok?
    ensures Spells(LexHere(s).value.0, s, LexHere(s).value.1)
  {
    if s != [] {
      if IsIdentifierStart(s[0]) {
        WordWas(s);
      } else if IsDigit(s[0]) {
        NumberWas(s);
      } else if s[0] == QUOTE {
        TextWas(s);
      } else {
        assert s == [s[0]] + s[1..];
      }
    }
  }

  /** The token is spelled at the start of the text, after blanks and comments. */
  ghost predicate SpellsAfter(gaps: seq<Gap>, body: Bytes, s: Bytes, t: Token, rest: Bytes) {
    StandBefore(gaps, body) && s == GapsText(gaps) + body && Spells(t, body, rest)
  }

  lemma SpelledLexes(gaps: seq<Gap>, body: Bytes, s: Bytes, t: Token, rest: Bytes)
    requires SpellsAfter(gaps, body, s, t, rest)
    ensures Lex(s) == Ok((t, rest))
  {
    SpelledIsBody(t, body, rest);
    GapsRead(gaps, body);
    SpelledReads(t, body, rest);
  }

  lemma LexedIsSpelled(s: Bytes, t: Token, rest: Bytes) returns (gaps: seq<Gap>, body: Bytes)
    requires Lex(s) == Ok((t, rest))
    ensures SpellsAfter(gaps, body, s, t, rest)
  {
    gaps := GapsWere(s);
    body := AfterTrivia(s).value;
    ReadWasSpelled(body);
  }

  /** The lexer yields a token exactly where one is spelled, after blanks and comments. */
  lemma LexesExactly(s: Bytes, t: Token, rest: Bytes)
    ensures Lex(s) == Ok((t, rest)) <==> exists gaps, body :: SpellsAfter(gaps, body, s, t, rest)
  {
    if Lex(s) == Ok((t, rest)) {
      var gaps, body := LexedIsSpelled(s, t, rest);
    }
    if gaps, body :| SpellsAfter(gaps, body, s, t, rest) {
      SpelledLexes(gaps, body, s, t, rest);
    }
  }

  /** Something that starts no token is unexpected, unless it is not even a character. */
  lemma UnexpectedExactly(s: Bytes)
    ensures LexHere(s) == Err(UnexpectedCharacter) <==>
      && s != [] && Character(s).Ok? && !IsIdentifierStart(s[0]) && !IsDigit(s[0])
      && s[0] !in {0x22, 0x7B, 0x7D, 0x3B}
  {
    if s != [] && s[0] == QUOTE {
      StringErrors(s[1..]);
    }
  }

  lemma {:induction false} StringErrors(s: Bytes)
    ensures StringRest(s) != Err(UnexpectedCharacter)
    decreases |s|
  {
    if s != [] && s[0] != QUOTE && StringCharacter(s).Ok? {
      StringErrors(StringCharacter(s).value.1);
    }
  }
}
