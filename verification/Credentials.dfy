/**
 The owner credential file: the printer of the provisioner against the lexer and parser of the
 provider.
 */
module Credentials {
  import opened Basics
  import opened Utf8
  import opened ConfigLexer

  const MAXIMUM_LOGIN_BYTES := 128
  const MAXIMUM_FILE_BYTES := 4096

  const OWNER: Bytes := [0x6F, 0x77, 0x6E, 0x65, 0x72]
  const LOGIN: Bytes := [0x6C, 0x6F, 0x67, 0x69, 0x6E]
  const PASSWORD_VERIFIER: Bytes :=
    [0x70, 0x61, 0x73, 0x73, 0x77, 0x6F, 0x72, 0x64, 0x5F, 0x76, 0x65, 0x72, 0x69, 0x66, 0x69, 0x65, 0x72]

  datatype Values = Values(login: Option<Bytes>, verifier: Option<Bytes>)
  datatype Record = Record(identity: string, login: Bytes, verifier: Bytes)
  datatype ProvisioningError =
    | FileTooLarge | MalformedFile | MissingLogin | MissingVerifier | InvalidLogin | InvalidVerifier

  // ---- Printer ----

  /** One byte as it is printed between quotes. */
  function Escaped(b: Byte): Bytes {
    if b == BACKSLASH || b == QUOTE then [BACKSLASH] + [b] else [b]
  }

  function EscapeLogin(login: Bytes): Bytes {
    if login == [] then [] else Escaped(login[0]) + EscapeLogin(login[1..])
  }

  lemma {:induction false} EscapeSnoc(login: Bytes, b: Byte)
    ensures EscapeLogin(login + [b]) == EscapeLogin(login) + Escaped(b)
    decreases |login|
  {
    if login == [] {
      assert [] + [b] == [b] && [b][1..] == [];
    } else {
      EscapeSnoc(login[1..], b);
      assert (login + [b])[1..] == login[1..] + [b];
      Associative(Escaped(login[0]), EscapeLogin(login[1..]), Escaped(b));
    }
  }

  method EscapeByte(escaped: Bytes, b: Byte) returns (longer: Bytes)
    ensures longer == escaped + Escaped(b)
  {
    longer := escaped;
    if b == BACKSLASH || b == QUOTE {
      longer := longer + [BACKSLASH];
    }
    longer := longer + [b];
  }

  method EscapeLoginText(login: Bytes) returns (escaped: Bytes)
    ensures escaped == EscapeLogin(login)
  {
    escaped := [];
    for i := 0 to |login|
      invariant escaped == EscapeLogin(login[..i])
    {
      EscapeSnoc(login[..i], login[i]);
      assert login[..i] + [login[i]] == login[..i + 1];
      escaped := EscapeByte(escaped, login[i]);
    }
    assert login[..|login|] == login;
  }

  /** Four blanks after a line feed, as both directives are indented. */
  function Indented(rest: Bytes): Bytes {
    [LF] + ([SPACE] + ([SPACE] + ([SPACE] + ([SPACE] + rest))))
  }

  function Quoted(text: Bytes, rest: Bytes): Bytes {
    [SPACE] + ([QUOTE] + (text + ([QUOTE] + ([SEMICOLON] + rest))))
  }

  function Tail(): Bytes {
    [LF] + ([RIGHT_BRACE] + ([LF] + []))
  }

  /** The printed file: an owner block with the escaped login and the verifier as it is. */
  function CredentialSource(login: Bytes, verifier: Bytes): Bytes {
    OWNER + ([SPACE] + ([LEFT_BRACE]
      + Indented(LOGIN + Quoted(EscapeLogin(login), Indented(PASSWORD_VERIFIER + Quoted(verifier, Tail()))))))
  }

  predicate IsValidOwnerLogin(login: Bytes) {
    login != [] && |login| <= MAXIMUM_LOGIN_BYTES && Plain(login)
  }

  /** No control byte. */
  predicate Plain(text: Bytes) {
    forall i :: 0 <= i < |text| ==> text[i] >= 0x20 && text[i] != 0x7F
  }

  // ---- Parser ----

  /** A string, a semicolon and the token after them. */
  function Directive(s: Bytes): (r: Option<(Bytes, Token, Bytes)>)
    ensures r.Some? ==> |r.value.2| < |s|
  {
    var value := Lex(s);
    if value.Err? || !value.value.0.StringLiteral? then None
    else
      var semicolon := Lex(value.value.1);
      if semicolon.Err? || !semicolon.value.0.Semicolon? then None
      else
        var next := Lex(semicolon.value.1);
        if next.Err? then None
        else
          NextIsNoLonger(semicolon.value.1);
          Some((value.value.0.decoded, next.value.0, next.value.1))
  }

  lemma NextIsNoLonger(s: Bytes)
    ensures Lex(s).Ok? ==> |Lex(s).value.1| <= |s|
  {
  }

  /** The block from a token on: directives, each at most once, until the closing brace ends the file. */
  function Block(t: Token, rest: Bytes, v: Values): Result<Values, ProvisioningError>
    decreases |rest|
  {
    match t
    case RightBrace =>
      var next := Lex(rest);
      if next.Ok? && next.value.0.EndOfInput? then Ok(v) else Err(MalformedFile)
    case Identifier(name) =>
      var d := Directive(rest);
      if d.None? then Err(MalformedFile)
      else if name == LOGIN && v.login.None? then Block(d.value.1, d.value.2, v.(login := Some(d.value.0)))
      else if name == PASSWORD_VERIFIER && v.verifier.None? then
        Block(d.value.1, d.value.2, v.(verifier := Some(d.value.0)))
      else Err(MalformedFile)
    case _ => Err(MalformedFile)
  }

  function Parse(s: Bytes): Result<Values, ProvisioningError> {
    var owner := Lex(s);
    if owner.Err? || owner.value.0 != Identifier(OWNER) then Err(MalformedFile)
    else
      var brace := Lex(owner.value.1);
      if brace.Err? || !brace.value.0.LeftBrace? then Err(MalformedFile)
      else
        var first := Lex(brace.value.1);
        if first.Err? then Err(MalformedFile) else Block(first.value.0, first.value.1, Values(None, None))
  }

  function WithoutMark(source: Bytes): Bytes {
    if HasByteOrderMark(source) then source[3..] else source
  }

  function Checked(values: Values, usable: Bytes -> bool): Result<Record, ProvisioningError> {
    if values.login.None? then Err(MissingLogin)
    else if values.verifier.None? then Err(MissingVerifier)
    else if !IsValidOwnerLogin(values.login.value) then Err(InvalidLogin)
    else if !usable(values.verifier.value) then Err(InvalidVerifier)
    else Ok(Record("owner", values.login.value, values.verifier.value))
  }

  /** What a credential file means. */
  function Load(source: Bytes, usable: Bytes -> bool): Result<Record, ProvisioningError> {
    if |source| > MAXIMUM_FILE_BYTES then Err(FileTooLarge)
    else if |source| > MAX_INPUT_BYTES then Err(MalformedFile)
    else
      var parsed := Parse(WithoutMark(source));
      if parsed.Err? then Err(parsed.error) else Checked(parsed.value, usable)
  }

  // ---- The file on its own terms ----

  /** These are all the tokens of the text, the end included. */
  predicate Tokenizes(s: Bytes, tokens: seq<Token>)
    decreases |tokens|
  {
    && tokens != []
    && var next := Lex(s);
    && next.Ok? && next.value.0 == tokens[0]
    && if tokens[0].EndOfInput? then |tokens| == 1 else Tokenizes(next.value.1, tokens[1..])
  }

  /** Directives, each at most once, and the closing brace at the end of the file: what `v` becomes. */
  predicate BlockOf(tokens: seq<Token>, v: Values, result: Values)
    decreases |tokens|
  {
    if |tokens| == 2 then tokens == [RightBrace, EndOfInput] && result == v
    else
      && |tokens| > 3 && tokens[1].StringLiteral? && tokens[2].Semicolon?
      && ((tokens[0] == Identifier(LOGIN) && v.login.None?
             && BlockOf(tokens[3..], v.(login := Some(tokens[1].decoded)), result))
          || (tokens[0] == Identifier(PASSWORD_VERIFIER) && v.verifier.None?
             && BlockOf(tokens[3..], v.(verifier := Some(tokens[1].decoded)), result)))
  }

  predicate FileOf(tokens: seq<Token>, result: Values) {
    && |tokens| > 2 && tokens[0] == Identifier(OWNER) && tokens[1] == LeftBrace
    && BlockOf(tokens[2..], Values(None, None), result)
  }

  /** A first token and the tokens after it. */
  predicate Follows(t: Token, rest: Bytes, tokens: seq<Token>) {
    tokens != [] && tokens[0] == t && if t.EndOfInput? then |tokens| == 1 else Tokenizes(rest, tokens[1..])
  }

  /** The first token of a text, and the tokens after it. */
  lemma FirstToken(s: Bytes, tokens: seq<Token>)
    requires Tokenizes(s, tokens)
    ensures Lex(s).Ok? && Lex(s).value.0 == tokens[0] && Follows(tokens[0], Lex(s).value.1, tokens)
  {
  }

  lemma DirectiveReads(t: Token, rest: Bytes, tokens: seq<Token>)
    requires Follows(t, rest, tokens) && !t.EndOfInput?
    requires |tokens| > 3 && tokens[1].StringLiteral? && tokens[2].Semicolon?
    ensures Directive(rest).Some?
    ensures var d := Directive(rest).value; d.0 == tokens[1].decoded && Follows(d.1, d.2, tokens[3..])
  {
    var one := tokens[1..];
    FirstToken(rest, one);
    var two := one[1..];
    FirstToken(Lex(rest).value.1, two);
    var three := two[1..];
    FirstToken(Lex(Lex(rest).value.1).value.1, three);
    assert three == tokens[3..];
  }

  lemma {:induction false} BlockReads(t: Token, rest: Bytes, v: Values, tokens: seq<Token>, result: Values)
    requires Follows(t, rest, tokens) && BlockOf(tokens, v, result)
    ensures Block(t, rest, v) == Ok(result)
    decreases |tokens|
  {
    assert LOGIN != PASSWORD_VERIFIER;
    if |tokens| > 2 {
      DirectiveReads(t, rest, tokens);
      var d := Directive(rest).value;
      if tokens[0] == Identifier(LOGIN) {
        BlockReads(d.1, d.2, v.(login := Some(d.0)), tokens[3..], result);
      } else {
        BlockReads(d.1, d.2, v.(verifier := Some(d.0)), tokens[3..], result);
      }
    }
  }

  /** The three tokens of a directive and the token after them. */
  lemma DirectiveTokens(t: Token, rest: Bytes, d: (Bytes, Token, Bytes), more: seq<Token>)
    requires Directive(rest) == Some(d) && Follows(d.1, d.2, more) && !t.EndOfInput?
    ensures Follows(t, rest, [t, StringLiteral(d.0), Semicolon] + more)
  {
    var tokens := [t, StringLiteral(d.0), Semicolon] + more;
    var after := Lex(Lex(rest).value.1).value.1;
    assert tokens[1..] == [StringLiteral(d.0), Semicolon] + more;
    assert tokens[1..][1..] == [Semicolon] + more && tokens[1..][1..][1..] == more;
    assert Tokenizes(after, more);
  }

  lemma {:induction false} BlockWas(t: Token, rest: Bytes, v: Values) returns (tokens: seq<Token>)
    requires Block(t, rest, v).Ok?
    ensures Follows(t, rest, tokens) && BlockOf(tokens, v, Block(t, rest, v).value)
    decreases |rest|
  {
    if t.RightBrace? {
      tokens := [RightBrace, EndOfInput];
      assert tokens[1..] == [EndOfInput];
    } else {
      var d := Directive(rest).value;
      var next := if t == Identifier(LOGIN) then v.(login := Some(d.0)) else v.(verifier := Some(d.0));
      var more := BlockWas(d.1, d.2, next);
      DirectiveTokens(t, rest, d, more);
      tokens := [t, StringLiteral(d.0), Semicolon] + more;
      assert tokens[3..] == more;
    }
  }

  /** A file is accepted exactly for its tokens, whatever stands between them, and everything else is malformed. */
  lemma ParsesExactly(s: Bytes, result: Values)
    ensures Parse(s) == Ok(result) <==> exists tokens :: Tokenizes(s, tokens) && FileOf(tokens, result)
    ensures Parse(s).Err? ==> Parse(s) == Err(MalformedFile)
  {
    if Parse(s) == Ok(result) {
      var brace := Lex(Lex(s).value.1).value;
      var first := Lex(brace.1).value;
      var more := BlockWas(first.0, first.1, Values(None, None));
      var tokens := [Identifier(OWNER), LeftBrace] + more;
      assert tokens[1..] == [LeftBrace] + more && tokens[1..][1..] == tokens[2..] == more;
      assert Tokenizes(brace.1, more);
      assert Tokenizes(s, tokens) && FileOf(tokens, result);
    }
    if tokens :| Tokenizes(s, tokens) && FileOf(tokens, result) {
      FirstToken(s, tokens);
      FirstToken(Lex(s).value.1, tokens[1..]);
      var brace := Lex(Lex(s).value.1).value;
      assert tokens[1..][1..] == tokens[2..];
      FirstToken(brace.1, tokens[2..]);
      var first := Lex(brace.1).value;
      BlockReads(first.0, first.1, Values(None, None), tokens[2..], result);
    }
    if Parse(s).Err? {
      ParseFails(s);
    }
  }

  lemma ParseFails(s: Bytes)
    requires Parse(s).Err?
    ensures Parse(s) == Err(MalformedFile)
  {
    if Lex(s).Ok? && Lex(Lex(s).value.1).Ok? && Lex(Lex(Lex(s).value.1).value.1).Ok? {
      var first := Lex(Lex(Lex(s).value.1).value.1).value;
      BlockFails(first.0, first.1, Values(None, None));
    }
  }

  lemma {:induction false} BlockFails(t: Token, rest: Bytes, v: Values)
    ensures Block(t, rest, v).Err? ==> Block(t, rest, v) == Err(MalformedFile)
    decreases |rest|
  {
    if t.Identifier? && Directive(rest).Some? {
      var d := Directive(rest).value;
      BlockFails(d.1, d.2, v.(login := Some(d.0)));
      BlockFails(d.1, d.2, v.(verifier := Some(d.0)));
    }
  }

  /** A login is 1 to 128 bytes, none of them a control character. */
  lemma LoginsExactly(login: Bytes)
    ensures IsValidOwnerLogin(login) <==>
      1 <= |login| <= 128 && forall b :: b in login ==> 0x20 <= b && b != 0x7F
  {
    assert forall i :: 0 <= i < |login| ==> login[i] in login;
  }

  /** The first thing missing or wrong in a well-formed file is what it is rejected for. */
  lemma ChecksExactly(values: Values, usable: Bytes -> bool)
    ensures var checked := Checked(values, usable);
      && (checked == Err(MissingLogin) <==> values.login.None?)
      && (checked == Err(MissingVerifier) <==> values.login.Some? && values.verifier.None?)
      && (values.login.Some? && values.verifier.Some? ==>
            var login, verifier := values.login.value, values.verifier.value;
            && (checked == Err(InvalidLogin) <==> !IsValidOwnerLogin(login))
            && (checked == Err(InvalidVerifier) <==> IsValidOwnerLogin(login) && !usable(verifier))
            && (IsValidOwnerLogin(login) && usable(verifier) ==> checked == Ok(Record("owner", login, verifier))))
  {
  }

  /** A byte-order mark at the start and the size limit come first. */
  lemma LoadsExactly(source: Bytes, usable: Bytes -> bool)
    ensures |source| > 4096 <==> Load(source, usable) == Err(FileTooLarge)
    ensures |source| <= 4096 ==>
      var text := if [0xEF, 0xBB, 0xBF] <= source then source[3..] else source;
      Load(source, usable) == if Parse(text).Err? then Err(MalformedFile) else Checked(Parse(text).value, usable)
  {
    assert HasByteOrderMark(source) <==> [0xEF, 0xBB, 0xBF] <= source by {
      if HasByteOrderMark(source) {
        assert source[..3] == [0xEF, 0xBB, 0xBF];
      }
    }
    if Parse(WithoutMark(source)).Err? {
      ParseFails(WithoutMark(source));
    }
  }

  class CredentialSourceParser {
    const lexer: ConfigLexer
    var current: Token

    constructor (lexer: ConfigLexer)
      ensures this.lexer == lexer
    {
      this.lexer, current := lexer, EndOfInput;
    }

    /** Moves to the next token; a lexical error loses its details here. */
    method Advance() returns (ok: bool)
      requires lexer.Valid() && lexer.terminalError.None?
      modifies this`current, lexer
      ensures lexer.Valid()
      ensures ok == Lex(old(lexer.Rest())).Ok?
      ensures ok ==> (current, lexer.Rest()) == Lex(old(lexer.Rest())).value && lexer.terminalError.None?
    {
      var token := lexer.Next();
      if token.Err? {
        return false;
      }
      current := token.value;
      return true;
    }

    method ParseDirective() returns (value: Option<Bytes>)
      requires lexer.Valid() && lexer.terminalError.None?
      modifies this`current, lexer
      ensures lexer.Valid()
      ensures match Directive(old(lexer.Rest()))
        case None => value == None
        case Some(d) => value == Some(d.0) && current == d.1 && lexer.Rest() == d.2 && lexer.terminalError.None?
    {
      var ok := Advance();
      if !ok || !current.StringLiteral? {
        return None;
      }
      value := Some(current.decoded);
      ok := Advance();
      if !ok || !current.Semicolon? {
        return None;
      }
      ok := Advance();
      if !ok {
        return None;
      }
    }

    method ParseFile() returns (r: Result<Values, ProvisioningError>)
      requires lexer.Valid() && lexer.terminalError.None?
      modifies this`current, lexer
      ensures r == Parse(old(lexer.Rest()))
    {
      var ok := Advance();
      if !ok || current != Identifier(OWNER) {
        return Err(MalformedFile);
      }
      ok := Advance();
      if !ok || !current.LeftBrace? {
        return Err(MalformedFile);
      }
      ok := Advance();
      if !ok {
        return Err(MalformedFile);
      }
      var values := Values(None, None);
      while current != RightBrace
        invariant lexer.Valid() && lexer.terminalError.None?
        invariant Block(current, lexer.Rest(), values) == Parse(old(lexer.Rest()))
        decreases |lexer.Rest()|
      {
        if !current.Identifier? {
          return Err(MalformedFile);
        }
        var name := current.lexeme;
        var value := ParseDirective();
        if value.None? {
          return Err(MalformedFile);
        }
        if name == LOGIN && values.login.None? {
          values := values.(login := value);
        } else if name == PASSWORD_VERIFIER && values.verifier.None? {
          values := values.(verifier := value);
        } else {
          return Err(MalformedFile);
        }
      }
      ok := Advance();
      return if ok && current.EndOfInput? then Ok(values) else Err(MalformedFile);
    }
  }

  method CreateFromSource(source: Bytes, usable: Bytes -> bool) returns (r: Result<Record, ProvisioningError>)
    ensures r == Load(source, usable)
  {
    if |source| > MAXIMUM_FILE_BYTES {
      return Err(FileTooLarge);
    }
    var lexer := ConfigLexer.Create(source);
    if lexer.Err? {
      return Err(MalformedFile);
    }
    var parser := new CredentialSourceParser(lexer.value);
    var parsed := parser.ParseFile();
    if parsed.Err? {
      return Err(parsed.error);
    }
    var values := parsed.value;
    if values.login.None? {
      return Err(MissingLogin);
    }
    if values.verifier.None? {
      return Err(MissingVerifier);
    }
    if !IsValidOwnerLogin(values.login.value) {
      return Err(InvalidLogin);
    }
    if !usable(values.verifier.value) {
      return Err(InvalidVerifier);
    }
    return Ok(Record("owner", values.login.value, values.verifier.value));
  }

  // ---- Lexing what was printed ----

  lemma LexSpace(c: Byte, rest: Bytes)
    requires IsSpace(c)
    ensures Lex([c] + rest) == Lex(rest)
  {
    assert ([c] + rest)[1..] == rest;
  }

  lemma LexPunctuation(c: Byte, rest: Bytes)
    requires Punctuation(c).Some?
    ensures Lex([c] + rest) == Ok((Punctuation(c).value, rest))
  {
    assert ([c] + rest)[1..] == rest;
  }

  lemma {:induction false} SpanOfWord(word: Bytes, rest: Bytes)
    requires forall i :: 0 <= i < |word| ==> IsIdentifierContinuation(word[i])
    requires rest != [] && !IsIdentifierContinuation(rest[0])
    ensures Span(word + rest, IsIdentifierContinuation) == |word|
    decreases |word|
  {
    if word == [] {
      assert word + rest == rest;
    } else {
      SpanOfWord(word[1..], rest);
      assert (word + rest)[1..] == word[1..] + rest;
    }
  }

  lemma LexWord(word: Bytes, rest: Bytes)
    requires word != [] && IsIdentifierStart(word[0]) && word != TRUE && word != FALSE
    requires forall i :: 0 <= i < |word| ==> IsIdentifierContinuation(word[i])
    requires rest != [] && !IsIdentifierContinuation(rest[0])
    ensures Lex(word + rest) == Ok((Identifier(word), rest))
  {
    SpanOfWord(word, rest);
    var s := word + rest;
    assert s[0] == word[0];
    assert AfterTrivia(s) == Ok(s);
    assert s[..|word|] == word && s[|word|..] == rest;
  }

  lemma LexIndented(rest: Bytes)
    ensures Lex(Indented(rest)) == Lex(rest)
  {
    LexSpace(SPACE, rest);
    LexSpace(SPACE, [SPACE] + rest);
    LexSpace(SPACE, [SPACE] + ([SPACE] + rest));
    LexSpace(SPACE, [SPACE] + ([SPACE] + ([SPACE] + rest)));
    LexSpace(LF, [SPACE] + ([SPACE] + ([SPACE] + ([SPACE] + rest))));
  }

  // ---- Texts that survive a quoted string ----

  /** Well-formed, and no character is a byte-order mark. */
  predicate Clean(text: Bytes)
    decreases |text|
  {
    text == [] || (!HasByteOrderMark(text) && Decode(text).Some? && Clean(text[Decode(text).value.byteCount..]))
  }

  lemma PrependScalar(v: CodePoint, rest: seq<CodePoint>)
    requires IsScalarValue(v) && AllScalars(rest)
    ensures AllScalars([v] + rest) && EncodeAll([v] + rest) == Encode(v) + EncodeAll(rest)
  {
    assert ([v] + rest)[1..] == rest;
  }

  lemma CleanHead(text: Bytes) returns (v: CodePoint, n: nat)
    requires Clean(text) && text != []
    ensures IsScalarValue(v) && v != BYTE_ORDER_MARK
    ensures 1 <= n <= |text| && Encode(v) == text[..n] && Clean(text[n..])
  {
    EncodeDecode(text);
    MarkIsCodePoint(text);
    v, n := Decode(text).value.value, Decode(text).value.byteCount;
  }

  lemma {:induction false} CleanIsText(text: Bytes) returns (scalars: seq<CodePoint>)
    requires Clean(text)
    ensures AllScalars(scalars) && EncodeAll(scalars) == text && BYTE_ORDER_MARK !in scalars
    decreases |text|
  {
    scalars := [];
    if text != [] {
      var v, n := CleanHead(text);
      var tail := text[n..];
      var rest := CleanIsText(tail);
      PrependScalar(v, rest);
      assert text == text[..n] + tail;
      scalars := [v] + rest;
    }
  }

  lemma {:induction false} TextIsClean(scalars: seq<CodePoint>)
    requires AllScalars(scalars) && BYTE_ORDER_MARK !in scalars
    ensures Clean(EncodeAll(scalars))
  {
    if scalars != [] {
      FirstScalar(scalars);
      MarkIsCodePoint(EncodeAll(scalars));
      TextIsClean(scalars[1..]);
    }
  }

  /** Unicode text without U+FEFF, in terms of scalars only. */
  ghost predicate UnmarkedText(text: Bytes) {
    exists scalars :: AllScalars(scalars) && EncodeAll(scalars) == text && BYTE_ORDER_MARK !in scalars
  }

  lemma CleanExactly(text: Bytes)
    ensures Clean(text) <==> UnmarkedText(text)
  {
    if Clean(text) {
      var scalars := CleanIsText(text);
    }
    if scalars :| AllScalars(scalars) && EncodeAll(scalars) == text && BYTE_ORDER_MARK !in scalars {
      TextIsClean(scalars);
    }
  }

  // ---- Reading an escaped string back ----

  /** The printed string from some point of the login on. */
  function Printed(login: Bytes, rest: Bytes): Bytes {
    EscapeLogin(login) + ([QUOTE] + rest)
  }

  lemma PrintedStep(login: Bytes, rest: Bytes)
    requires login != []
    ensures Printed(login, rest) ==
      if login[0] == BACKSLASH || login[0] == QUOTE then [BACKSLASH] + ([login[0]] + Printed(login[1..], rest))
      else [login[0]] + Printed(login[1..], rest)
  {
    var p := Printed(login[1..], rest);
    Associative(Escaped(login[0]), EscapeLogin(login[1..]), [QUOTE] + rest);
    Associative([BACKSLASH], [login[0]], p);
  }

  lemma PrintedEmpty(rest: Bytes)
    ensures Printed([], rest) == [QUOTE] + rest
  {
  }

  lemma ConsSlices(b: Byte, rest: Bytes, n: nat)
    requires 1 <= n <= |rest| + 1
    ensures ([b] + rest)[..n] == [b] + rest[..n - 1] && ([b] + rest)[n..] == rest[n - 1..]
  {
  }

  /** No ASCII byte. */
  predicate High(bytes: Bytes) {
    forall i :: 0 <= i < |bytes| ==> bytes[i] >= 0x80
  }

  lemma HighStep(login: Bytes, rest: Bytes, n: nat)
    requires 0 < n <= |login| && High(login[..n])
    ensures Printed(login, rest) == [login[0]] + Printed(login[1..], rest) && High(login[1..][..n - 1])
  {
    assert login[..n][0] >= 0x80;
    PrintedStep(login, rest);
    assert login[1..][..n - 1] == login[..n][1..];
  }

  /** Escaping leaves runs of non-ASCII bytes as they are, and they end where they ended. */
  lemma {:induction false} HighRun(login: Bytes, rest: Bytes, n: nat)
    requires n <= |login| && High(login[..n])
    ensures n <= |Printed(login, rest)| && Printed(login, rest)[..n] == login[..n]
    ensures Printed(login, rest)[n..] == Printed(login[n..], rest)
    decreases n
  {
    if n > 0 {
      var b, tail, p := login[0], login[1..], Printed(login[1..], rest);
      HighStep(login, rest, n);
      HighRun(tail, rest, n - 1);
      ConsSlices(b, p, n);
      ConsSlices(b, tail, n);
      assert login == [b] + tail;
    } else {
      assert login[0..] == login;
    }
  }

  lemma {:induction false} HighRunBack(login: Bytes, rest: Bytes, n: nat)
    requires n <= |Printed(login, rest)| && forall i :: 0 <= i < n ==> Printed(login, rest)[i] >= 0x80
    ensures n <= |login| && forall i :: 0 <= i < n ==> login[i] >= 0x80
    decreases n
  {
    if n > 0 {
      assert Printed(login, rest)[0] >= 0x80;
      PrintedEmpty(rest);
      if login != [] {
        PrintedStep(login, rest);
        var p := Printed(login[1..], rest);
        assert login[0] != BACKSLASH && login[0] != QUOTE;
        forall i | 0 <= i < n - 1 ensures p[i] >= 0x80 {
          assert Printed(login, rest)[i + 1] == p[i];
        }
        HighRunBack(login[1..], rest, n - 1);
        forall i | 0 <= i < n ensures login[i] >= 0x80 {
          if i > 0 {
            assert login[i] == login[1..][i - 1];
          }
        }
      }
    }
  }

  /** A non-ASCII character of the login reads the same in the printed string as on its own. */
  lemma HighCharacter(login: Bytes, rest: Bytes)
    requires login != [] && login[0] >= 0x80
    ensures var x := Printed(login, rest); Decode(x) == Decode(login)
    ensures Decode(login).Some? ==>
      var n := Decode(login).value.byteCount;
      n <= |login| && n <= |Printed(login, rest)|
      && Printed(login, rest)[..n] == login[..n] && Printed(login, rest)[n..] == Printed(login[n..], rest)
  {
    var x := Printed(login, rest);
    if Decode(login).Some? {
      MultibyteIsHigh(login);
      HighRun(login, rest, Decode(login).value.byteCount);
      DecodeIsLocal(login, x);
    } else if Decode(x).Some? {
      var n := Decode(x).value.byteCount;
      PrintedStep(login, rest);
      MultibyteIsHigh(x);
      HighRunBack(login, rest, n);
      HighRun(login, rest, n);
      DecodeIsLocal(x, login);
    }
  }

  lemma ReadHigh(login: Bytes, rest: Bytes)
    requires login != [] && login[0] >= 0x80
    ensures Printed(login, rest) != [] && Printed(login, rest)[0] != QUOTE
    ensures var c := StringCharacter(Printed(login, rest));
      if !HasByteOrderMark(login) && Decode(login).Some?
      then var n := Decode(login).value.byteCount; 1 <= n <= |login| && c == Ok((login[..n], Printed(login[n..], rest)))
      else c.Err?
  {
    PrintedStep(login, rest);
    MarkIsCodePoint(login);
    MarkIsCodePoint(Printed(login, rest));
    HighCharacter(login, rest);
  }

  lemma AsciiCharacter(a: Byte, rest: Bytes)
    requires 0x20 <= a < 0x80
    ensures Decode([a] + rest) == Some(DecodedScalar(a as bv32, 1)) && !HasByteOrderMark([a] + rest)
    ensures Character([a] + rest) == Ok(1)
  {
    DecodeAscii(a, rest);
  }

  lemma ReadAscii(a: Byte, login: Bytes, rest: Bytes)
    requires 0x20 <= a < 0x80
    ensures Printed([a] + login, rest) != [] && Printed([a] + login, rest)[0] != QUOTE
    ensures StringCharacter(Printed([a] + login, rest)) == Ok(([a], Printed(login, rest)))
  {
    PrintedStep([a] + login, rest);
    assert ([a] + login)[1..] == login;
    var p := Printed(login, rest);
    AsciiCharacter(a, p);
    assert ([a] + p)[..1] == [a] && ([a] + p)[1..] == p;
    if a == BACKSLASH || a == QUOTE {
      assert ([BACKSLASH] + ([a] + p))[1..] == [a] + p;
    }
  }

  /** Reading one character of the printed string: the character itself, or a failure. */
  lemma ReadCharacter(login: Bytes, rest: Bytes)
    requires login != [] && Plain(login)
    ensures Printed(login, rest) != [] && Printed(login, rest)[0] != QUOTE
    ensures var c := StringCharacter(Printed(login, rest));
      if !HasByteOrderMark(login) && Decode(login).Some?
      then var n := Decode(login).value.byteCount; 1 <= n <= |login| && c == Ok((login[..n], Printed(login[n..], rest)))
      else c.Err?
  {
    if login[0] >= 0x80 {
      ReadHigh(login, rest);
    } else {
      AsciiCharacter(login[0], login[1..]);
      ReadAscii(login[0], login[1..], rest);
      assert login == [login[0]] + login[1..];
      assert login[..1] == [login[0]];
    }
  }

  /** The string from one character on is that character and the string after it. */
  lemma ReadStep(s: Bytes, text: Bytes, after: Bytes)
    requires s != [] && s[0] != QUOTE && StringCharacter(s) == Ok((text, after))
    ensures StringRest(s) == Prepend(text, StringRest(after))
  {
  }

  lemma ReadFails(s: Bytes)
    requires s != [] && s[0] != QUOTE && StringCharacter(s).Err?
    ensures StringRest(s).Err?
  {
  }

  lemma ReadEnd(rest: Bytes)
    ensures StringRest([QUOTE] + rest) == Ok(([], rest))
  {
    assert ([QUOTE] + rest)[1..] == rest;
  }

  /** Reading on by one character of the login, in the printed string and in the login itself. */
  lemma CharacterStep(login: Bytes, rest: Bytes) returns (n: nat)
    requires login != [] && Plain(login)
    ensures n == 0 ==> !Clean(login) && StringRest(Printed(login, rest)).Err?
    ensures n <= |login|
    ensures n > 0 ==> (Clean(login) <==> Clean(login[n..]))
    ensures n > 0 ==> StringRest(Printed(login, rest)) == Prepend(login[..n], StringRest(Printed(login[n..], rest)))
  {
    ReadCharacter(login, rest);
    if !HasByteOrderMark(login) && Decode(login).Some? {
      n := Decode(login).value.byteCount;
      ReadStep(Printed(login, rest), login[..n], Printed(login[n..], rest));
    } else {
      n := 0;
      ReadFails(Printed(login, rest));
    }
  }

  lemma PrependSplit(text: Bytes, n: nat, rest: Bytes)
    requires n <= |text|
    ensures Prepend(text[..n], Ok((text[n..], rest))) == Ok((text, rest))
  {
    assert text[..n] + text[n..] == text;
  }

  /** The printed string reads back exactly when the login is text without a byte-order mark. */
  lemma {:induction false} StringRoundTrip(login: Bytes, rest: Bytes)
    requires Plain(login)
    ensures StringRest(Printed(login, rest)).Ok? <==> Clean(login)
    ensures Clean(login) ==> StringRest(Printed(login, rest)) == Ok((login, rest))
    decreases |login|
  {
    if login == [] {
      PrintedEmpty(rest);
      ReadEnd(rest);
    } else {
      var n := CharacterStep(login, rest);
      if n > 0 {
        StringRoundTrip(login[n..], rest);
        PrependSplit(login, n, rest);
      }
    }
  }

  // ---- The whole file ----

  /** Verifiers as the hashing library prints them: printable ASCII without quote or backslash. */
  predicate PlainVerifier(verifier: Bytes) {
    forall i :: 0 <= i < |verifier| ==> 0x20 <= verifier[i] < 0x7F && verifier[i] != QUOTE && verifier[i] != BACKSLASH
  }

  lemma {:induction false} VerifierNeedsNoEscape(verifier: Bytes)
    requires PlainVerifier(verifier)
    ensures EscapeLogin(verifier) == verifier && Clean(verifier) && Plain(verifier)
  {
    if verifier != [] {
      VerifierNeedsNoEscape(verifier[1..]);
      assert verifier == [verifier[0]] + verifier[1..];
      DecodeAscii(verifier[0], verifier[1..]);
      MarkIsCodePoint(verifier);
      assert Decode(verifier).value.byteCount == 1;
    }
  }

  lemma LexQuoted(text: Bytes, rest: Bytes)
    requires Plain(text)
    ensures Clean(text) ==> Lex(Quoted(EscapeLogin(text), rest)) == Ok((StringLiteral(text), [SEMICOLON] + rest))
    ensures !Clean(text) ==> Lex(Quoted(EscapeLogin(text), rest)).Err?
  {
    var s := [QUOTE] + Printed(text, [SEMICOLON] + rest);
    LexSpace(SPACE, s);
    assert s[1..] == Printed(text, [SEMICOLON] + rest);
    assert AfterTrivia(s) == Ok(s);
    StringRoundTrip(text, [SEMICOLON] + rest);
  }

  /** One printed directive, followed by something that starts with a token. */
  lemma ReadDirective(text: Bytes, rest: Bytes)
    requires Plain(text) && Lex(rest).Ok?
    ensures Clean(text) ==>
      Directive(Quoted(EscapeLogin(text), rest)) == Some((text, Lex(rest).value.0, Lex(rest).value.1))
    ensures !Clean(text) ==> Directive(Quoted(EscapeLogin(text), rest)).None?
  {
    LexQuoted(text, rest);
    LexPunctuation(SEMICOLON, rest);
  }

  lemma ReadTail(v: Values)
    ensures Lex(Tail()) == Ok((RightBrace, [LF] + []))
    ensures Block(RightBrace, [LF] + [], v) == Ok(v)
  {
    LexSpace(LF, [RIGHT_BRACE] + ([LF] + []));
    LexPunctuation(RIGHT_BRACE, [LF] + []);
    LexSpace(LF, []);
  }

  lemma ReadVerifier(verifier: Bytes, v: Values)
    requires PlainVerifier(verifier) && v.verifier.None?
    ensures Lex(Indented(PASSWORD_VERIFIER + Quoted(verifier, Tail())))
         == Ok((Identifier(PASSWORD_VERIFIER), Quoted(verifier, Tail())))
    ensures Block(Identifier(PASSWORD_VERIFIER), Quoted(verifier, Tail()), v) == Ok(v.(verifier := Some(verifier)))
  {
    LexIndented(PASSWORD_VERIFIER + Quoted(verifier, Tail()));
    LexWord(PASSWORD_VERIFIER, Quoted(verifier, Tail()));
    VerifierNeedsNoEscape(verifier);
    ReadTail(v.(verifier := Some(verifier)));
    ReadDirective(verifier, Tail());
    assert PASSWORD_VERIFIER != LOGIN;
  }

  lemma ReadLogin(login: Bytes, verifier: Bytes)
    requires Plain(login) && PlainVerifier(verifier)
    ensures var rest := Quoted(EscapeLogin(login), Indented(PASSWORD_VERIFIER + Quoted(verifier, Tail())));
      && Lex(Indented(LOGIN + rest)) == Ok((Identifier(LOGIN), rest))
      && Block(Identifier(LOGIN), rest, Values(None, None)) ==
           if Clean(login) then Ok(Values(Some(login), Some(verifier))) else Err(MalformedFile)
  {
    var last := Indented(PASSWORD_VERIFIER + Quoted(verifier, Tail()));
    var rest := Quoted(EscapeLogin(login), last);
    LexIndented(LOGIN + rest);
    LexWord(LOGIN, rest);
    ReadVerifier(verifier, Values(Some(login), None));
    ReadDirective(login, last);
  }

  lemma ReadSource(login: Bytes, verifier: Bytes)
    requires Plain(login) && PlainVerifier(verifier)
    ensures Parse(CredentialSource(login, verifier)) ==
      if Clean(login) then Ok(Values(Some(login), Some(verifier))) else Err(MalformedFile)
    ensures !HasByteOrderMark(CredentialSource(login, verifier))
  {
    var body := Indented(LOGIN + Quoted(EscapeLogin(login), Indented(PASSWORD_VERIFIER + Quoted(verifier, Tail()))));
    LexWord(OWNER, [SPACE] + ([LEFT_BRACE] + body));
    LexSpace(SPACE, [LEFT_BRACE] + body);
    LexPunctuation(LEFT_BRACE, body);
    ReadLogin(login, verifier);
  }

  /**
   The provisioned file loads back to exactly the login and verifier it was made from, if and only if
   the login is Unicode text without U+FEFF and the file fits; otherwise it does not load at all.
   */
  lemma FileRoundTrip(login: Bytes, verifier: Bytes, usable: Bytes -> bool)
    requires IsValidOwnerLogin(login) && PlainVerifier(verifier) && usable(verifier)
    ensures var source := CredentialSource(login, verifier);
      Load(source, usable) ==
        if |source| > MAXIMUM_FILE_BYTES then Err(FileTooLarge)
        else if UnmarkedText(login) then Ok(Record("owner", login, verifier))
        else Err(MalformedFile)
  {
    ReadSource(login, verifier);
    CleanExactly(login);
  }

  /** The provisioner does accept logins that are not text: such a file is written and cannot be loaded. */
  lemma UnloadableLogin(verifier: Bytes, usable: Bytes -> bool)
    requires PlainVerifier(verifier)
    ensures IsValidOwnerLogin([0xFF]) && Load(CredentialSource([0xFF], verifier), usable).Err?
  {
    ReadSource([0xFF], verifier);
  }
}
