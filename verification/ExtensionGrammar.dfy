/**
 The grammar of chunk extensions and trailer fields on its own terms, as a sender would print them, and
 the proof that the scanning functions of the decoder accept exactly these texts.
 */
module ExtensionGrammar {
  import opened Basics
  import opened HttpSyntax
  import opened ChunkGrammar

  /** One position of a quoted string: a character as it is, or behind a backslash. */
  datatype Piece = Plain(c: char) | Pair(c: char) {
    predicate Ok() {
      IsFieldValueByte(c) && (Plain? ==> c != '"' && c != '\\')
    }

    function Text(): string {
      if Plain? then [c] else ['\\', c]
    }
  }

  datatype Value = Token(token: string) | Quoted(pieces: seq<Piece>) {
    predicate Ok() {
      match this
      case Token(token) => token != "" && AllToken(token)
      case Quoted(pieces) => forall i :: 0 <= i < |pieces| ==> pieces[i].Ok()
    }

    function Text(): string {
      match this
      case Token(token) => token
      case Quoted(pieces) => "\"" + (PiecesText(pieces) + "\"")
    }
  }

  function PiecesText(pieces: seq<Piece>): string {
    if pieces == [] then "" else pieces[0].Text() + PiecesText(pieces[1..])
  }

  /** The value of an extension, with the blanks before and after the equals sign. */
  datatype Assignment = Nothing | Assigned(before: string, after: string, value: Value) {
    predicate Ok() {
      Assigned? ==> Blank(before) && Blank(after) && value.Ok()
    }

    function Text(): string {
      if Nothing? then "" else before + ("=" + (after + value.Text()))
    }
  }

  datatype Extension = Extension(before: string, after: string, name: string, assignment: Assignment) {
    predicate Ok() {
      Blank(before) && Blank(after) && name != "" && AllToken(name) && assignment.Ok()
    }

    function Text(): string {
      before + (";" + (after + (name + assignment.Text())))
    }
  }

  function Texts(extensions: seq<Extension>): string {
    if extensions == [] then "" else extensions[0].Text() + Texts(extensions[1..])
  }

  predicate AllOk(extensions: seq<Extension>) {
    forall i :: 0 <= i < |extensions| ==> extensions[i].Ok()
  }

  // ---- What is printed is skipped ----

  /** What may follow a name or a value: nothing, or the blanks and semicolon of the next extension. */
  ghost predicate Follows(rest: string) {
    rest == "" || exists before, more :: Blank(before) && rest == before + (";" + more)
  }

  /** Neither blanks nor the two separators belong to a token. */
  lemma SeparatesTokens(c: char)
    requires IsSpace(c) || c == '=' || c == ';'
    ensures !IsTokenChar(c)
  {
    TokenCharsExactly(c);
  }

  /** A separator behind blanks is what a text starts with, or is found by trimming it. */
  lemma SeparatorFound(before: string, mark: char, more: string)
    requires Blank(before) && (mark == '=' || mark == ';')
    ensures var text := before + ([mark] + more);
      text != "" && TrimLeft(text) == [mark] + more && !IsTokenChar(text[0])
  {
    var text := before + ([mark] + more);
    LeftTrims(before, [mark] + more);
    assert text[0] == if before == "" then mark else before[0];
    SeparatesTokens(text[0]);
  }

  lemma FollowsFacts(rest: string)
    requires Follows(rest)
    ensures rest != "" ==> !IsTokenChar(rest[0])
    ensures TrimLeft(rest) == "" || TrimLeft(rest)[0] == ';'
  {
    if rest != "" {
      var before, more :| Blank(before) && rest == before + (";" + more);
      SeparatorFound(before, ';', more);
    }
  }

  lemma TextsFollow(extensions: seq<Extension>)
    requires AllOk(extensions)
    ensures Follows(Texts(extensions))
  {
    if extensions != [] {
      var e := extensions[0];
      var more := e.after + (e.name + e.assignment.Text());
      Associative(e.before, ";" + more, Texts(extensions[1..]));
      Associative(";", more, Texts(extensions[1..]));
      assert Texts(extensions) == e.before + (";" + (more + Texts(extensions[1..])));
    }
  }

  lemma {:induction false} TokenSkipped(token: string, rest: string)
    requires AllToken(token) && (rest == "" || !IsTokenChar(rest[0]))
    ensures SkipToken(token + rest) == rest
    decreases |token|
  {
    if token == "" {
      assert token + rest == rest;
    } else {
      assert (token + rest)[1..] == token[1..] + rest;
      TokenSkipped(token[1..], rest);
    }
  }

  lemma {:induction false} PiecesSkipped(pieces: seq<Piece>, rest: string)
    requires forall i :: 0 <= i < |pieces| ==> pieces[i].Ok()
    ensures SkipQuoted(PiecesText(pieces) + ("\"" + rest)) == Some(rest)
    decreases |pieces|
  {
    var tail := "\"" + rest;
    if pieces == [] {
      assert PiecesText(pieces) + tail == tail && tail[1..] == rest;
    } else {
      var t := pieces[0].Text() + (PiecesText(pieces[1..]) + tail);
      assert PiecesText(pieces) + tail == t;
      assert t[|pieces[0].Text()|..] == PiecesText(pieces[1..]) + tail;
      PiecesSkipped(pieces[1..], rest);
    }
  }

  /** What is left of a text that starts with a value. */
  function AfterValue(e: string): Option<string>
    requires e != ""
  {
    if e[0] == '"' then SkipQuoted(e[1..]) else if SkipToken(e) == e then None else Some(SkipToken(e))
  }

  lemma TokenValueSkipped(token: string, rest: string)
    requires token != "" && AllToken(token) && Follows(rest)
    ensures !IsSpace((token + rest)[0]) && AfterValue(token + rest) == Some(rest)
  {
    FollowsFacts(rest);
    TokenSkipped(token, rest);
    assert (token + rest)[0] == token[0] && IsTokenChar(token[0]);
  }

  lemma QuotedValueSkipped(pieces: seq<Piece>, rest: string)
    requires forall i :: 0 <= i < |pieces| ==> pieces[i].Ok()
    ensures var e := "\"" + (PiecesText(pieces) + "\"") + rest;
      !IsSpace(e[0]) && AfterValue(e) == Some(rest)
  {
    var e, inner := "\"" + (PiecesText(pieces) + "\"") + rest, PiecesText(pieces) + ("\"" + rest);
    PiecesSkipped(pieces, rest);
    Associative("\"", PiecesText(pieces) + "\"", rest);
    Associative(PiecesText(pieces), "\"", rest);
    assert e == "\"" + inner && e[1..] == inner;
  }

  lemma ValueSkipped(v: Value, rest: string)
    requires v.Ok() && Follows(rest)
    ensures var e := v.Text() + rest; e != "" && !IsSpace(e[0]) && AfterValue(e) == Some(rest)
  {
    match v
    case Token(token) => TokenValueSkipped(token, rest);
    case Quoted(pieces) => QuotedValueSkipped(pieces, rest);
  }

  lemma Regroup(a: string, b: string, c: string, d: string, rest: string)
    ensures a + (b + (c + d)) + rest == a + (b + (c + (d + rest)))
  {
    Associative(a, b + (c + d), rest);
    Associative(b, c + d, rest);
    Associative(c, d, rest);
  }

  lemma AssignedSkipped(a: Assignment, rest: string)
    requires a.Ok() && Follows(rest)
    ensures SkipValue(a.Text() + rest) == Some(rest)
    ensures a.Text() + rest != "" ==> !IsTokenChar((a.Text() + rest)[0])
  {
    FollowsFacts(rest);
    if a.Nothing? {
      assert a.Text() + rest == rest;
    } else {
      var e := a.value.Text() + rest;
      Regroup(a.before, "=", a.after, a.value.Text(), rest);
      ValueSkipped(a.value, rest);
      LeftTrims(a.after, e);
      ValueAfterEquals(a.before, a.after, e, rest);
    }
  }

  lemma ValueAfterEquals(before: string, after: string, e: string, rest: string)
    requires Blank(before) && TrimLeft(after + e) == e && e != "" && AfterValue(e) == Some(rest)
    ensures SkipValue(before + ("=" + (after + e))) == Some(rest)
    ensures !IsTokenChar((before + ("=" + (after + e)))[0])
  {
    SeparatorFound(before, '=', after + e);
    assert ("=" + (after + e))[1..] == after + e;
  }

  lemma ExtensionSkipped(e: Extension, rest: string)
    requires e.Ok() && Follows(rest)
    ensures SkipExtension(e.Text() + rest) == Some(rest)
  {
    var c := e.assignment.Text() + rest;
    Regroup(e.before, ";", e.after, e.name + e.assignment.Text(), rest);
    Associative(e.name, e.assignment.Text(), rest);
    AssignedSkipped(e.assignment, rest);
    TokenSkipped(e.name, c);
    NameAfterSemicolon(e.before, e.after, e.name, c);
  }

  lemma NameAfterSemicolon(before: string, after: string, name: string, c: string)
    requires Blank(before) && Blank(after) && name != "" && AllToken(name) && SkipToken(name + c) == c
    ensures SkipExtension(before + (";" + (after + (name + c)))) == SkipValue(c)
  {
    var b := name + c;
    var a := ";" + (after + b);
    LeftTrims(before, a);
    assert a[1..] == after + b;
    assert b[0] == name[0] && IsTokenChar(name[0]);
    LeftTrims(after, b);
  }

  lemma {:induction false} PrintedIsValid(extensions: seq<Extension>)
    requires AllOk(extensions)
    ensures ValidExtensions(Texts(extensions))
    decreases |extensions|
  {
    if extensions != [] {
      TextsFollow(extensions[1..]);
      ExtensionSkipped(extensions[0], Texts(extensions[1..]));
      PrintedIsValid(extensions[1..]);
    }
  }

  // ---- What is skipped was printed ----

  lemma TrimmedWas(t: string) returns (before: string)
    ensures Blank(before) && t == before + TrimLeft(t)
  {
    var k := LeftSplit(t);
    before := t[..k];
  }

  lemma {:induction false} SkippedWasToken(t: string) returns (token: string)
    ensures AllToken(token) && t == token + SkipToken(t) && (token == "" <==> SkipToken(t) == t)
  {
    token := "";
    if t != "" && IsTokenChar(t[0]) {
      token := SkippedWasToken(t[1..]);
      token := [t[0]] + token;
      assert t == [t[0]] + t[1..];
    }
  }

  /** The first piece of a quoted string that goes on. */
  lemma QuotedStep(t: string) returns (first: Piece, tail: string)
    requires SkipQuoted(t).Some? && t[0] != '"'
    ensures first.Ok() && t == first.Text() + tail && |tail| < |t| && SkipQuoted(tail) == SkipQuoted(t)
  {
    if t[0] == '\\' {
      first, tail := Pair(t[1]), t[2..];
    } else {
      first, tail := Plain(t[0]), t[1..];
    }
  }

  lemma OneMorePiece(first: Piece, pieces: seq<Piece>, end: string)
    ensures PiecesText([first] + pieces) + end == first.Text() + (PiecesText(pieces) + end)
  {
    assert ([first] + pieces)[1..] == pieces;
    Associative(first.Text(), PiecesText(pieces), end);
  }

  lemma {:induction false} SkippedWasQuoted(t: string) returns (pieces: seq<Piece>)
    requires SkipQuoted(t).Some?
    ensures forall i :: 0 <= i < |pieces| ==> pieces[i].Ok()
    ensures t == PiecesText(pieces) + ("\"" + SkipQuoted(t).value)
    decreases |t|
  {
    pieces := [];
    if t[0] == '"' {
      assert t == "" + ("\"" + t[1..]);
    } else {
      var first, tail := QuotedStep(t);
      var rest := SkippedWasQuoted(tail);
      OneMorePiece(first, rest, "\"" + SkipQuoted(t).value);
      pieces := [first] + rest;
    }
  }

  lemma SkippedWasValue(e: string) returns (v: Value)
    requires e != "" && AfterValue(e).Some?
    ensures v.Ok() && e == v.Text() + AfterValue(e).value
  {
    if e[0] == '"' {
      var pieces := SkippedWasQuoted(e[1..]);
      var rest := SkipQuoted(e[1..]).value;
      v := Quoted(pieces);
      assert e == "\"" + e[1..];
      Associative("\"", PiecesText(pieces) + "\"", rest);
      Associative(PiecesText(pieces), "\"", rest);
    } else {
      var token := SkippedWasToken(e);
      v := Token(token);
    }
  }

  /** A separator with blanks around it, put together again. */
  lemma Separated(t: string, before: string, a: string, mark: char, after: string, b: string, x: string, rest: string)
    requires t == before + a && a != "" && a[0] == mark && a[1..] == after + b && b == x + rest
    ensures t == before + ([mark] + (after + x)) + rest
  {
    assert a == [mark] + a[1..];
    Regroup(before, [mark], after, x, rest);
  }

  lemma SkippedWasAssigned(t: string) returns (a: Assignment)
    requires SkipValue(t).Some?
    ensures a.Ok() && t == a.Text() + SkipValue(t).value
  {
    a := Nothing;
    var d := TrimLeft(t);
    if d != "" && d[0] == '=' {
      var before := TrimmedWas(t);
      var after := TrimmedWas(d[1..]);
      var e := TrimLeft(d[1..]);
      var v := SkippedWasValue(e);
      a := Assigned(before, after, v);
      Separated(t, before, d, '=', after, e, v.Text(), SkipValue(t).value);
    }
  }

  lemma SkippedWasExtension(t: string) returns (e: Extension)
    requires SkipExtension(t).Some?
    ensures e.Ok() && t == e.Text() + SkipExtension(t).value
  {
    var a := TrimLeft(t);
    var b := TrimLeft(a[1..]);
    var rest := SkipExtension(t).value;
    var before := TrimmedWas(t);
    var after := TrimmedWas(a[1..]);
    var name := SkippedWasToken(b);
    var assignment := SkippedWasAssigned(SkipToken(b));
    e := Extension(before, after, name, assignment);
    Associative(name, assignment.Text(), rest);
    Separated(t, before, a, ';', after, b, name + assignment.Text(), rest);
  }

  lemma {:induction false} ValidWasPrinted(t: string) returns (extensions: seq<Extension>)
    requires ValidExtensions(t)
    ensures AllOk(extensions) && t == Texts(extensions)
    decreases |t|
  {
    extensions := [];
    if t != "" {
      var e := SkippedWasExtension(t);
      var rest := ValidWasPrinted(SkipExtension(t).value);
      extensions := [e] + rest;
      assert extensions[1..] == rest;
    }
  }

  /** The decoder accepts exactly the texts of well-formed extensions. */
  lemma ExtensionsExactly(t: string)
    ensures ValidExtensions(t) <==> exists extensions :: AllOk(extensions) && t == Texts(extensions)
  {
    if ValidExtensions(t) {
      var extensions := ValidWasPrinted(t);
    }
    if extensions :| AllOk(extensions) && t == Texts(extensions) {
      PrintedIsValid(extensions);
    }
  }

  // ---- Trailer fields ----

  /** Fields about framing, routing, credentials or content, which a trailer must not carry. */
  predicate Untrusted(name: string) {
    || IsNamed(name, "content-length") || IsNamed(name, "transfer-encoding") || IsNamed(name, "content-encoding")
    || IsNamed(name, "content-type") || IsNamed(name, "content-range") || IsNamed(name, "host")
    || IsNamed(name, "connection") || IsNamed(name, "trailer") || IsNamed(name, "te") || IsNamed(name, "expect")
    || IsNamed(name, "upgrade") || IsNamed(name, "authorization") || IsNamed(name, "proxy-authorization")
    || IsNamed(name, "cookie")
  }

  /** Whatever its case, this is the name. */
  predicate IsNamed(name: string, lower: string) {
    |name| == |lower| && forall i :: 0 <= i < |name| ==> Lower(name[i]) == lower[i]
  }

  predicate TrailerField(line: string, name: string, value: string) {
    && line == name + (":" + value)
    && name != "" && AllToken(name) && !Untrusted(name) && AllFieldValue(value)
  }

  lemma NamedInLowerCase(name: string, lower: string)
    ensures LowerAll(name) == lower <==> IsNamed(name, lower)
  {
  }

  lemma UntrustedExactly(name: string)
    ensures LowerAll(name) in FORBIDDEN_TRAILERS <==> Untrusted(name)
  {
    NamedInLowerCase(name, "content-length");
    NamedInLowerCase(name, "transfer-encoding");
    NamedInLowerCase(name, "content-encoding");
    NamedInLowerCase(name, "content-type");
    NamedInLowerCase(name, "content-range");
    NamedInLowerCase(name, "host");
    NamedInLowerCase(name, "connection");
    NamedInLowerCase(name, "trailer");
    NamedInLowerCase(name, "te");
    NamedInLowerCase(name, "expect");
    NamedInLowerCase(name, "upgrade");
    NamedInLowerCase(name, "authorization");
    NamedInLowerCase(name, "proxy-authorization");
    NamedInLowerCase(name, "cookie");
  }

  lemma TrailerFieldIsValid(line: string, name: string, value: string)
    requires TrailerField(line, name, value)
    ensures ValidTrailer(line)
  {
    UntrustedExactly(name);
    assert forall i :: 0 <= i < |name| ==> line[i] == name[i] && IsTokenChar(name[i]);
    assert line[|name|] == ':' && IndexOf(line, ':') == |name|;
    assert line[..|name|] == name && line[|name| + 1..] == value;
  }

  lemma ColonSplits(line: string, colon: nat)
    requires colon < |line| && line[colon] == ':'
    ensures line == line[..colon] + (":" + line[colon + 1..])
  {
  }

  /** What validity says about the parts of the line. */
  lemma ValidTrailerParts(line: string, colon: nat)
    requires ValidTrailer(line) && colon == IndexOf(line, ':')
    ensures 0 < colon < |line| && line[colon] == ':' && AllToken(line[..colon]) && AllFieldValue(line[colon + 1..])
    ensures LowerAll(line[..colon]) !in FORBIDDEN_TRAILERS
  {
  }

  lemma ValidTrailerIsField(line: string)
    requires ValidTrailer(line)
    ensures exists name, value :: TrailerField(line, name, value)
  {
    var colon := IndexOf(line, ':');
    ValidTrailerParts(line, colon);
    ColonSplits(line, colon);
    var name, value := line[..colon], line[colon + 1..];
    assert !Untrusted(name) by {
      UntrustedExactly(name);
    }
    assert TrailerField(line, name, value);
  }

  /** The decoder accepts exactly the trailer fields with a token for a name that it may trust. */
  lemma TrailersExactly(line: string)
    ensures ValidTrailer(line) <==> exists name, value :: TrailerField(line, name, value)
  {
    if ValidTrailer(line) {
      ValidTrailerIsField(line);
    }
    if name, value :| TrailerField(line, name, value) {
      TrailerFieldIsValid(line, name, value);
    }
  }
}
