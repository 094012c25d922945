/**
  How words are written in a configuration line, with quotes, escapes and variables, and that they are read
  back.
 */
module LineWords {
  import opened Tokenizer

  // ---- Writing ----

  /** What a word is made of outside quotes and in double quotes: a character that stands for itself, one behind a
      backslash, one given by two hexadecimal digits, or the value of a variable. */
  datatype Bit =
    | Char(c: char)
    | Esc(k: char)
    | Hex(a: nat, upperA: bool, b: nat, upperB: bool)
    | Value(name: string, braces: bool)

  /** A part of a word: outside quotes, in double quotes, or in single quotes. */
  datatype Part = Outside(bits: seq<Bit>) | Quoted(bits: seq<Bit>) | Raw(s: string)

  /** A word behind the first one, with the spaces in front of it. */
  datatype Further = Further(gap: string, word: seq<Part>)

  function Digit(v: nat, upper: bool): char
    requires v < 16
  {
    if v < 10 then ('0' as int + v) as char else ((if upper then 'A' else 'a') as int + v - 10) as char
  }

  /** The character stands for itself. */
  predicate Ordinary(c: char, q: Quote)
  {
    && c != '"' && c != '\\' && c != NEWLINE && c != RETURN && c != NUL
    && (q == Plain ==> !IsSpace(c) && c != '#' && c != '\'')
    && (q == Double ==> c != '$')
  }

  /** A backslash in front of the character goes. */
  predicate Known(k: char, q: Quote)
  {
    k in " \\#\"'rnt" || (k == '$' && q == Double)
  }

  ghost predicate IsVarName(name: string)
  {
    name != [] && (IsAlpha(name[0]) || name[0] == '_') && forall i :: 0 <= i < |name| ==> IsName(name[i])
  }

  ghost predicate BitOk(b: Bit, q: Quote)
  {
    match b
    case Char(c) => Ordinary(c, q)
    case Esc(k) => k != 'x' && (Known(k, q) || Ordinary(k, q))
    case Hex(x, _, y, _) => x < 16 && y < 16
    case Value(name, _) => q == Double && IsVarName(name)
  }

  ghost function Write(b: Bit): (s: string)
    requires b.Hex? ==> b.a < 16 && b.b < 16
    ensures s != []
  {
    match b
    case Char(c) => [c]
    case Esc(k) => ['\\', k]
    case Hex(x, upperA, y, upperB) => ['\\', 'x', Digit(x, upperA), Digit(y, upperB)]
    case Value(name, braces) => if braces then "${" + name + "}" else "$" + name
  }

  /** What is read: a value is taken as it is, whatever it holds, and a variable that is not set is nothing. */
  ghost function Means(b: Bit, q: Quote, env: Env): string
    requires BitOk(b, q)
  {
    match b
    case Char(c) => [c]
    case Esc(k) =>
      if k == 'r' then [RETURN] else if k == 'n' then [NEWLINE] else if k == 't' then [TAB]
      else if Known(k, q) then [k] else ['\\', k]
    case Hex(x, _, y, _) => [(16 * x + y) as char]
    case Value(name, _) => if name in env then env[name] else ""
  }

  /** The name of a variable without braces must end where the text goes on. */
  ghost predicate Ends(b: Bit, tail: string)
  {
    b.Value? && !b.braces ==> tail == [] || !IsName(tail[0])
  }

  ghost predicate BitsOk(bits: seq<Bit>, q: Quote)
  {
    bits != [] ==>
      && BitOk(bits[0], q) && BitsOk(bits[1..], q)
      && (bits[1..] != [] ==> Ends(bits[0], Write(bits[1])))
  }

  ghost function WriteAll(bits: seq<Bit>, q: Quote): string
    requires BitsOk(bits, q)
  {
    if bits == [] then [] else Write(bits[0]) + WriteAll(bits[1..], q)
  }

  ghost function MeansAll(bits: seq<Bit>, q: Quote, env: Env): string
    requires BitsOk(bits, q)
  {
    if bits == [] then [] else Means(bits[0], q, env) + MeansAll(bits[1..], q, env)
  }

  ghost predicate RawOk(s: string)
  {
    forall i :: 0 <= i < |s| ==> s[i] != '\'' && s[i] != NEWLINE && s[i] != RETURN && s[i] != NUL
  }

  ghost predicate PartOk(part: Part)
  {
    match part
    case Outside(bits) => bits != [] && BitsOk(bits, Plain)
    case Quoted(bits) => BitsOk(bits, Double)
    case Raw(s) => RawOk(s)
  }

  ghost function WritePart(part: Part): string
    requires PartOk(part)
  {
    match part
    case Outside(bits) => WriteAll(bits, Plain)
    case Quoted(bits) => "\"" + WriteAll(bits, Double) + "\""
    case Raw(s) => "'" + s + "'"
  }

  ghost function PartMeans(part: Part, env: Env): string
    requires PartOk(part)
  {
    match part
    case Outside(bits) => MeansAll(bits, Plain, env)
    case Quoted(bits) => MeansAll(bits, Double, env)
    case Raw(s) => s
  }

  ghost predicate PartsOk(word: seq<Part>)
  {
    forall i :: 0 <= i < |word| ==> PartOk(word[i])
  }

  ghost predicate WordOk(word: seq<Part>)
  {
    word != [] && PartsOk(word)
  }

  ghost function WriteWord(word: seq<Part>): string
    requires PartsOk(word)
  {
    if word == [] then [] else WritePart(word[0]) + WriteWord(word[1..])
  }

  ghost function WordMeans(word: seq<Part>, env: Env): string
    requires PartsOk(word)
  {
    if word == [] then [] else PartMeans(word[0], env) + WordMeans(word[1..], env)
  }

  /** Spaces between words; a line feed or a carriage return would end the line. */
  ghost predicate IsGap(s: string)
  {
    && s != [] && s[0] != NEWLINE && s[0] != RETURN
    && forall i :: 0 <= i < |s| ==> IsSpace(s[i])
  }

  ghost predicate MoreOk(more: seq<Further>)
  {
    forall i :: 0 <= i < |more| ==> IsGap(more[i].gap) && WordOk(more[i].word)
  }

  /** What ends a line: nothing, a comment, or an end of line and anything after it. */
  ghost predicate IsEnd(s: string)
  {
    s != [] ==> s[0] == '#' || s[0] == NEWLINE || s[0] == RETURN
  }

  ghost function WriteMore(more: seq<Further>, end: string): string
    requires MoreOk(more)
  {
    if more == [] then end else more[0].gap + (WriteWord(more[0].word) + WriteMore(more[1..], end))
  }

  ghost function MoreMean(more: seq<Further>, env: Env): (ws: seq<string>)
    requires MoreOk(more)
    ensures |ws| == |more|
  {
    if more == [] then [] else [WordMeans(more[0].word, env)] + MoreMean(more[1..], env)
  }

  // ---- What is written is read ----

  /** s, in front of tail, reads as out in front of what tail reads as. */
  ghost predicate ReadsAs(s: string, out: string, tail: string, q: Quote, room: nat, env: Env)
  {
    var r := Split(tail, q, room, env);
    Split(s + tail, q, room, env) == if r.Unusable? then r else r.(first := out + r.first)
  }

  lemma NextReads(s: string, out: string, tail: string, q: Quote, room: nat, env: Env)
    requires s != [] && room > 0 && Next(s + tail, q, env) == Text(|s|, out, false)
    ensures ReadsAs(s, out, tail, q, room, env)
  {
    assert (s + tail)[|s|..] == tail;
  }

  /** One text after another. */
  lemma ReadsOnward(s: string, out: string, s': string, out': string, tail: string, q: Quote, room: nat, env: Env)
    requires ReadsAs(s, out, s' + tail, q, room, env) && ReadsAs(s', out', tail, q, room, env)
    ensures ReadsAs(s + s', out + out', tail, q, room, env)
  {
    assert s + s' + tail == s + (s' + tail);
    var r := Split(tail, q, room, env);
    if !r.Unusable? { assert out + (out' + r.first) == out + out' + r.first; }
  }

  lemma ReadsNothing(tail: string, q: Quote, room: nat, env: Env)
    ensures ReadsAs("", "", tail, q, room, env)
  {
    var r := Split(tail, q, room, env);
    assert "" + tail == tail;
    if !r.Unusable? { assert "" + r.first == r.first; }
  }

  lemma CharReads(c: char, tail: string, q: Quote, room: nat, env: Env)
    requires q != Single && room > 0 && Ordinary(c, q)
    ensures ReadsAs([c], [c], tail, q, room, env)
  {
    var s := [c] + tail;
    assert s[0] == c && s[..1] == [c];
    NextReads([c], [c], tail, q, room, env);
  }

  lemma EscReads(k: char, tail: string, q: Quote, room: nat, env: Env)
    requires q != Single && room > 0 && BitOk(Esc(k), q)
    ensures ReadsAs(['\\', k], Means(Esc(k), q, env), tail, q, room, env)
  {
    var s := ['\\', k] + tail;
    assert s[0] == '\\' && s[1] == k;
    if Known(k, q) {
      NextReads(['\\', k], Means(Esc(k), q, env), tail, q, room, env);
    } else {
      var rest := [k] + tail;
      assert s == ['\\'] + rest;
      NextReads(['\\'], "\\", rest, q, room, env);
      CharReads(k, tail, q, room, env);
      ReadsOnward(['\\'], "\\", [k], [k], tail, q, room, env);
      assert ['\\'] + [k] == ['\\', k];
    }
  }

  lemma DigitValue(v: nat, upper: bool)
    requires v < 16
    ensures IsHex(Digit(v, upper)) && HexValue(Digit(v, upper)) == v
  {
  }

  lemma HexReads(a: nat, upperA: bool, b: nat, upperB: bool, tail: string, q: Quote, room: nat, env: Env)
    requires q != Single && room > 0 && a < 16 && b < 16
    ensures ReadsAs(['\\', 'x', Digit(a, upperA), Digit(b, upperB)], [(16 * a + b) as char], tail, q, room, env)
  {
    var s := ['\\', 'x', Digit(a, upperA), Digit(b, upperB)] + tail;
    assert s[0] == '\\' && s[1] == 'x' && s[2] == Digit(a, upperA) && s[3] == Digit(b, upperB);
    DigitValue(a, upperA);
    DigitValue(b, upperB);
    NextReads(['\\', 'x', Digit(a, upperA), Digit(b, upperB)], [(16 * a + b) as char], tail, q, room, env);
  }

  lemma {:induction false} NameOfName(name: string, tail: string)
    requires (forall i :: 0 <= i < |name| ==> IsName(name[i])) && (tail == [] || !IsName(tail[0]))
    ensures NameOf(name + tail) == |name|
  {
    if name == [] {
      assert name + tail == tail;
    } else {
      assert (name + tail)[1..] == name[1..] + tail;
      NameOfName(name[1..], tail);
    }
  }

  /** In double quotes a name in braces behind a dollar sign reads as the value. */
  lemma BracedReads(name: string, tail: string, room: nat, env: Env)
    requires room > 0 && IsVarName(name)
    ensures ReadsAs("${" + name + "}", if name in env then env[name] else "", tail, Double, room, env)
  {
    var t := "${" + name + "}";
    var s, n := t + tail, |name|;
    NameOfName(name, "}" + tail);
    assert s[0] == '$' && s[1] == '{' && s[2..] == name + ("}" + tail);
    assert s[2] == name[0] && s[2..2 + n] == name && s[2 + n] == '}';
    NextReads(t, if name in env then env[name] else "", tail, Double, room, env);
  }

  /** And so does one without braces where it ends. */
  lemma UnbracedReads(name: string, tail: string, room: nat, env: Env)
    requires room > 0 && IsVarName(name) && (tail == [] || !IsName(tail[0]))
    ensures ReadsAs("$" + name, if name in env then env[name] else "", tail, Double, room, env)
  {
    var t := "$" + name;
    var s, n := t + tail, |name|;
    NameOfName(name, tail);
    assert s[0] == '$' && s[1..] == name + tail;
    assert s[1] == name[0] && s[1..1 + n] == name;
    NextReads(t, if name in env then env[name] else "", tail, Double, room, env);
  }

  /** Any other dollar sign in double quotes makes the line unusable: with no name, or with an open brace. */
  lemma NamelessFails(tail: string, room: nat, env: Env)
    requires room > 0 && (tail == [] || (!IsAlpha(tail[0]) && tail[0] != '_'))
    ensures Split("${" + tail, Double, room, env).Unusable?
    ensures tail == [] || tail[0] != '{' ==> Split("$" + tail, Double, room, env).Unusable?
  {
    var s, s' := "${" + tail, "$" + tail;
    assert s[0] == '$' && s[1] == '{' && s[2..] == tail;
    assert s'[0] == '$' && s'[1..] == tail;
  }

  lemma OpenBraceFails(name: string, tail: string, room: nat, env: Env)
    requires room > 0 && IsVarName(name) && (tail == [] || (!IsName(tail[0]) && tail[0] != '}'))
    ensures Split("${" + name + tail, Double, room, env).Unusable?
  {
    var s, n := "${" + name + tail, |name|;
    NameOfName(name, tail);
    assert s[0] == '$' && s[1] == '{' && s[2..] == name + tail;
    assert tail != [] ==> s[2 + n] == tail[0];
  }

  lemma ValueReads(name: string, braces: bool, tail: string, room: nat, env: Env)
    requires room > 0 && IsVarName(name) && (braces || tail == [] || !IsName(tail[0]))
    ensures ReadsAs(if braces then "${" + name + "}" else "$" + name, if name in env then env[name] else "", tail,
      Double, room, env)
  {
    if braces { BracedReads(name, tail, room, env); } else { UnbracedReads(name, tail, room, env); }
  }

  lemma BitReads(b: Bit, tail: string, q: Quote, room: nat, env: Env)
    requires q != Single && room > 0 && BitOk(b, q) && Ends(b, tail)
    ensures ReadsAs(Write(b), Means(b, q, env), tail, q, room, env)
  {
    if b.Char? {
      CharReads(b.c, tail, q, room, env);
    } else if b.Esc? {
      EscReads(b.k, tail, q, room, env);
    } else if b.Hex? {
      HexReads(b.a, b.upperA, b.b, b.upperB, tail, q, room, env);
    } else {
      ValueReads(b.name, b.braces, tail, room, env);
    }
  }

  lemma EndsThere(b: Bit, bits: seq<Bit>, q: Quote, tail: string)
    requires BitsOk(bits, q) && (bits != [] ==> Ends(b, Write(bits[0]))) && Ends(b, tail)
    ensures Ends(b, WriteAll(bits, q) + tail)
  {
    if bits != [] { assert (WriteAll(bits, q) + tail)[0] == Write(bits[0])[0]; }
  }

  lemma {:induction false} BitsRead(bits: seq<Bit>, tail: string, q: Quote, room: nat, env: Env)
    requires q != Single && room > 0 && BitsOk(bits, q)
    requires q == Double ==> tail == [] || !IsName(tail[0])
    ensures ReadsAs(WriteAll(bits, q), MeansAll(bits, q, env), tail, q, room, env)
  {
    if bits == [] {
      ReadsNothing(tail, q, room, env);
    } else {
      BitsRead(bits[1..], tail, q, room, env);
      EndsThere(bits[0], bits[1..], q, tail);
      BitReads(bits[0], WriteAll(bits[1..], q) + tail, q, room, env);
      ReadsOnward(Write(bits[0]), Means(bits[0], q, env), WriteAll(bits[1..], q), MeansAll(bits[1..], q, env), tail, q,
        room, env);
    }
  }

  /** A quote opens or closes. */
  lemma QuoteReads(mark: char, q: Quote, q': Quote, tail: string, room: nat, env: Env)
    requires room > 0
    requires (q, q') == (Plain, if mark == '"' then Double else Single)
      || (q, q') == (if mark == '"' then Double else Single, Plain)
    requires mark == '"' || mark == '\''
    ensures Split([mark] + tail, q, room, env) == Split(tail, q', room, env)
  {
    assert ([mark] + tail)[0] == mark && ([mark] + tail)[1..] == tail;
  }

  lemma {:induction false} RawReads(s: string, tail: string, room: nat, env: Env)
    requires room > 0 && RawOk(s)
    ensures ReadsAs(s, s, tail, Single, room, env)
  {
    if s == [] {
      ReadsNothing(tail, Single, room, env);
    } else {
      var t := s[1..] + tail;
      assert ([s[0]] + t)[..1] == [s[0]];
      NextReads([s[0]], [s[0]], t, Single, room, env);
      RawReads(s[1..], tail, room, env);
      ReadsOnward([s[0]], [s[0]], s[1..], s[1..], tail, Single, room, env);
      assert [s[0]] + s[1..] == s;
    }
  }

  /** A text in quotes: what it reads as inside them it reads as outside. */
  lemma Enclosed(mark: char, q: Quote, s: string, out: string, tail: string, room: nat, env: Env)
    requires room > 0 && (mark == '"' || mark == '\'') && q == if mark == '"' then Double else Single
    requires ReadsAs(s, out, [mark] + tail, q, room, env)
    ensures ReadsAs([mark] + s + [mark], out, tail, Plain, room, env)
  {
    QuoteReads(mark, q, Plain, tail, room, env);
    QuoteReads(mark, Plain, q, s + ([mark] + tail), room, env);
    assert [mark] + s + [mark] + tail == [mark] + (s + ([mark] + tail));
  }

  lemma PartReads(part: Part, tail: string, room: nat, env: Env)
    requires room > 0 && PartOk(part)
    ensures ReadsAs(WritePart(part), PartMeans(part, env), tail, Plain, room, env)
  {
    match part
    case Outside(bits) =>
      BitsRead(bits, tail, Plain, room, env);
    case Quoted(bits) =>
      BitsRead(bits, "\"" + tail, Double, room, env);
      Enclosed('"', Double, WriteAll(bits, Double), MeansAll(bits, Double, env), tail, room, env);
    case Raw(s) =>
      RawReads(s, "'" + tail, room, env);
      Enclosed('\'', Single, s, s, tail, room, env);
  }

  lemma {:induction false} WordReads(word: seq<Part>, tail: string, room: nat, env: Env)
    requires room > 0 && PartsOk(word)
    ensures ReadsAs(WriteWord(word), WordMeans(word, env), tail, Plain, room, env)
  {
    if word == [] {
      ReadsNothing(tail, Plain, room, env);
    } else {
      WordReads(word[1..], tail, room, env);
      PartReads(word[0], WriteWord(word[1..]) + tail, room, env);
      ReadsOnward(WritePart(word[0]), PartMeans(word[0], env), WriteWord(word[1..]), WordMeans(word[1..], env), tail,
        Plain, room, env);
    }
  }

  lemma {:induction false} SpacesOfGap(gap: string, tail: string)
    requires (forall i :: 0 <= i < |gap| ==> IsSpace(gap[i])) && (tail == [] || !IsSpace(tail[0]))
    ensures SpacesOf(gap + tail) == |gap|
  {
    if gap == [] {
      assert gap + tail == tail;
    } else {
      assert (gap + tail)[1..] == gap[1..] + tail;
      SpacesOfGap(gap[1..], tail);
    }
  }

  /** Spaces outside quotes end a word. */
  lemma GapReads(gap: string, tail: string, room: nat, left: nat, env: Env)
    requires room == left + 1 && IsGap(gap) && (tail == [] || !IsSpace(tail[0]))
    ensures var r := Split(tail, Plain, left, env);
      Split(gap + tail, Plain, room, env) == if r.Unusable? then r else r.(first := "", more := [r.first] + r.more)
  {
    var s := gap + tail;
    assert s[0] == gap[0] && s[1..] == gap[1..] + tail;
    SpacesOfGap(gap[1..], tail);
    assert Next(s, Plain, env) == Break(|gap|) && s[|gap|..] == tail;
  }

  lemma BitBegins(b: Bit)
    requires BitOk(b, Plain)
    ensures !IsSpace(Write(b)[0])
  {
  }

  lemma WordBegins(word: seq<Part>, tail: string)
    requires WordOk(word)
    ensures WriteWord(word) != [] && !IsSpace((WriteWord(word) + tail)[0])
  {
    var p := WritePart(word[0]);
    if word[0].Outside? {
      BitBegins(word[0].bits[0]);
      assert p[0] == Write(word[0].bits[0])[0];
    }
    assert (WriteWord(word) + tail)[0] == p[0];
  }

  /** The end of a line, in quotes an end of line proper. */
  lemma EndReads(end: string, q: Quote, room: nat, env: Env)
    requires room > 0 && IsEnd(end) && (end != [] && end[0] == '#' ==> q == Plain)
    ensures Split(end, q, room, env) == Words("", [], "", q, false)
  {
  }

  /** What a line makes of its words: with too many of them the last one read is empty. */
  ghost function MoreRead(first: string, more: seq<Further>, end: string, room: nat, env: Env): (r: Words)
    requires MoreOk(more) && room > 0
    ensures r.Words? && r.first == first
  {
    if |more| < room then Words(first, MoreMean(more, env), "", Plain, false)
    else
      Words(first, MoreMean(more[..room - 1], env) + [""],
        WriteWord(more[room - 1].word) + WriteMore(more[room..], end), Plain, false)
  }

  lemma FirstMeans(more: seq<Further>, k: nat, rest: seq<Further>, env: Env)
    requires MoreOk(more) && more != [] && rest == more[1..] && k <= |rest|
    ensures MoreMean(more[..k + 1], env) == [WordMeans(more[0].word, env)] + MoreMean(rest[..k], env)
  {
    assert more[..k + 1][1..] == rest[..k];
  }

  lemma MoreCut(more: seq<Further>, k: nat, rest: seq<Further>, end: string, env: Env)
    requires MoreOk(more) && more != [] && rest == more[1..] && k < |rest|
    ensures MoreMean(more[..k + 1], env) + [""] ==
      [WordMeans(more[0].word, env)] + (MoreMean(rest[..k], env) + [""])
    ensures WriteWord(more[k + 1].word) + WriteMore(more[k + 2..], end) ==
      WriteWord(rest[k].word) + WriteMore(rest[k + 1..], end)
  {
    FirstMeans(more, k, rest, env);
    assert more[k + 2..] == rest[k + 1..];
  }

  lemma MoreReadOn(more: seq<Further>, rest: seq<Further>, end: string, room: nat, left: nat, env: Env)
    requires MoreOk(more) && more != [] && rest == more[1..] && room == left + 1 && left > 0
    ensures var r := MoreRead("", rest, end, left, env);
      MoreRead("", more, end, room, env) == Words("", [WordMeans(more[0].word, env)] + r.more, r.rest, Plain, false)
  {
    if |more| >= room { MoreCut(more, left - 1, rest, end, env); }
  }

  lemma {:induction false} MoreReads(more: seq<Further>, end: string, room: nat, left: nat, env: Env)
    requires room == left + 1 && MoreOk(more) && IsEnd(end)
    ensures Split(WriteMore(more, end), Plain, room, env) == MoreRead("", more, end, room, env)
    decreases |more|
  {
    if more == [] {
      EndReads(end, Plain, room, env);
    } else {
      var word, rest := more[0].word, more[1..];
      var tail := WriteMore(rest, end);
      WordBegins(word, tail);
      GapReads(more[0].gap, WriteWord(word) + tail, room, left, env);
      if left > 0 {
        MoreReads(rest, end, left, left - 1, env);
        WordReads(word, tail, left, env);
        assert WordMeans(word, env) + "" == WordMeans(word, env);
        MoreReadOn(more, rest, end, room, left, env);
      }
    }
  }

  /** A line of words, however they are written, reads as the words; more than there is room for are left over. */
  lemma LineReads(word: seq<Part>, more: seq<Further>, end: string, room: nat, env: Env)
    requires room > 0 && WordOk(word) && MoreOk(more) && IsEnd(end)
    ensures Split(WriteWord(word) + WriteMore(more, end), Plain, room, env) ==
      MoreRead(WordMeans(word, env), more, end, room, env)
  {
    MoreReads(more, end, room, room - 1, env);
    WordReads(word, WriteMore(more, end), room, env);
    assert WordMeans(word, env) + "" == WordMeans(word, env);
  }

  /** A quote that is not closed in the line stays open. */
  lemma OpenQuote(bits: seq<Bit>, end: string, room: nat, env: Env)
    requires room > 0 && BitsOk(bits, Double) && IsEnd(end) && (end != [] ==> end[0] != '#')
    ensures Split("\"" + (WriteAll(bits, Double) + end), Plain, room, env) ==
      Words(MeansAll(bits, Double, env), [], "", Double, false)
  {
    BitsRead(bits, end, Double, room, env);
    EndReads(end, Double, room, env);
    QuoteReads('"', Plain, Double, WriteAll(bits, Double) + end, room, env);
    assert MeansAll(bits, Double, env) + "" == MeansAll(bits, Double, env);
  }

  lemma OpenRaw(s: string, end: string, room: nat, env: Env)
    requires room > 0 && RawOk(s) && IsEnd(end) && (end != [] ==> end[0] != '#')
    ensures Split("'" + (s + end), Plain, room, env) == Words(s, [], "", Single, false)
  {
    RawReads(s, end, room, env);
    EndReads(end, Single, room, env);
    QuoteReads('\'', Plain, Single, s + end, room, env);
    assert s + "" == s;
  }

  /** An escape with digits that lacks them is left as it is, and complained about. */
  lemma BadHexReads(tail: string, q: Quote, room: nat, env: Env)
    requires q != Single && room > 0 && (|tail| < 2 || !IsHex(tail[0]) || !IsHex(tail[1]))
    ensures var r := Split(tail, q, room, env);
      Split("\\x" + tail, q, room, env) == if r.Unusable? then r else r.(first := "\\x" + r.first, bad := true)
  {
    var s, t := "\\x" + tail, "x" + tail;
    assert s[0] == '\\' && s[1] == 'x' && s[1..] == t;
    assert |tail| >= 2 ==> s[2] == tail[0] && s[3] == tail[1];
    assert Next(s, q, env) == Text(1, "\\", true);
    CharReads('x', tail, q, room, env);
    BadJoined(Split(tail, q, room, env), Split(t, q, room, env));
  }

  lemma BadJoined(r: Words, r': Words)
    requires r' == if r.Unusable? then r else r.(first := ['x'] + r.first)
    ensures Extend(Text(1, "\\", true), r') == if r.Unusable? then r else r.(first := "\\x" + r.first, bad := true)
  {
    if !r.Unusable? { assert "\\" + (['x'] + r.first) == "\\x" + r.first; }
  }

  // ---- Any words can be written ----

  /** A character as it is written so that it is read as itself. */
  function BitFor(c: char): Bit
  {
    if c in " \\#\"'" then Esc(c)
    else if c == NEWLINE then Esc('n')
    else if c == RETURN then Esc('r')
    else if c == TAB then Esc('t')
    else if IsSpace(c) || c == NUL then Hex(0, false, c as nat, false)
    else Char(c)
  }

  function BitsFor(w: string): seq<Bit>
  {
    if w == [] then [] else [BitFor(w[0])] + BitsFor(w[1..])
  }

  ghost predicate NoNul(s: string)
  {
    forall i :: 0 <= i < |s| ==> s[i] != NUL
  }

  lemma BitForOk(c: char, env: Env)
    ensures BitOk(BitFor(c), Plain) && Means(BitFor(c), Plain, env) == [c] && !BitFor(c).Value?
  {
  }

  lemma {:induction false} BitsForOk(w: string, env: Env)
    ensures BitsOk(BitsFor(w), Plain) && MeansAll(BitsFor(w), Plain, env) == w && (w != [] ==> BitsFor(w) != [])
  {
    if w != [] {
      BitsForOk(w[1..], env);
      BitForOk(w[0], env);
      BitsMore(BitFor(w[0]), BitsFor(w[1..]), env);
    }
  }

  lemma BitsMore(b: Bit, bits: seq<Bit>, env: Env)
    requires BitOk(b, Plain) && !b.Value? && BitsOk(bits, Plain)
    ensures BitsOk([b] + bits, Plain)
    ensures MeansAll([b] + bits, Plain, env) == Means(b, Plain, env) + MeansAll(bits, Plain, env)
  {
    assert ([b] + bits)[1..] == bits;
  }

  /** A word of any characters, as it may be written. */
  ghost function WordFor(w: string): seq<Part>
  {
    if w == [] then [Quoted([])] else [Outside(BitsFor(w))]
  }

  lemma WordForOk(w: string, env: Env)
    ensures WordOk(WordFor(w)) && WordMeans(WordFor(w), env) == w
  {
    BitsForOk(w, env);
    assert WordFor(w)[1..] == [];
    assert WordMeans(WordFor(w), env) == PartMeans(WordFor(w)[0], env) + "";
  }

  ghost function MoreFor(ws: seq<string>): seq<Further>
  {
    if ws == [] then [] else [Further(" ", WordFor(ws[0]))] + MoreFor(ws[1..])
  }

  lemma {:induction false} MoreForOk(ws: seq<string>, env: Env)
    ensures MoreOk(MoreFor(ws)) && MoreMean(MoreFor(ws), env) == ws
  {
    if ws != [] {
      MoreForOk(ws[1..], env);
      WordForOk(ws[0], env);
      assert MoreFor(ws)[1..] == MoreFor(ws[1..]);
    }
  }

  /** Words of any characters can be written so that they are read back just as they were. */
  lemma WordsReadBack(ws: seq<string>, room: nat, env: Env)
    requires 0 < |ws| <= room
    ensures WordOk(WordFor(ws[0])) && MoreOk(MoreFor(ws[1..]))
    ensures var line := WriteWord(WordFor(ws[0])) + WriteMore(MoreFor(ws[1..]), "");
      NoNul(line) && Split(line, Plain, room, env) == Words(ws[0], ws[1..], "", Plain, false)
  {
    WordForOk(ws[0], env);
    MoreForOk(ws[1..], env);
    LineReads(WordFor(ws[0]), MoreFor(ws[1..]), "", room, env);
    LineNoNul(WordFor(ws[0]), MoreFor(ws[1..]), "");
  }

  lemma BitNoNul(b: Bit, q: Quote)
    requires BitOk(b, q)
    ensures NoNul(Write(b))
  {
    if b.Hex? { DigitsNoNul(b.a, b.upperA, b.b, b.upperB); }
  }

  lemma DigitsNoNul(a: nat, upperA: bool, b: nat, upperB: bool)
    requires a < 16 && b < 16
    ensures NoNul(['\\', 'x', Digit(a, upperA), Digit(b, upperB)])
  {
  }

  lemma {:induction false} BitsNoNul(bits: seq<Bit>, q: Quote)
    requires BitsOk(bits, q)
    ensures NoNul(WriteAll(bits, q))
  {
    if bits != [] {
      BitNoNul(bits[0], q);
      BitsNoNul(bits[1..], q);
    }
  }

  lemma {:induction false} WordNoNul(word: seq<Part>)
    requires PartsOk(word)
    ensures NoNul(WriteWord(word))
  {
    if word != [] {
      if word[0].Outside? { BitsNoNul(word[0].bits, Plain); }
      if word[0].Quoted? { BitsNoNul(word[0].bits, Double); }
      WordNoNul(word[1..]);
    }
  }

  lemma {:induction false} MoreNoNul(more: seq<Further>, end: string)
    requires MoreOk(more) && NoNul(end)
    ensures NoNul(WriteMore(more, end))
  {
    if more != [] {
      WordNoNul(more[0].word);
      MoreNoNul(more[1..], end);
    }
  }

  /** What is written may stand in a line. */
  lemma LineNoNul(word: seq<Part>, more: seq<Further>, end: string)
    requires WordOk(word) && MoreOk(more) && NoNul(end)
    ensures NoNul(WriteWord(word) + WriteMore(more, end))
  {
    WordNoNul(word);
    MoreNoNul(more, end);
  }

  // ---- The arguments ----

  /** What the tokenizer makes of a line of words, however they are written: each argument is what its word means, up
      to the first zero. */
  lemma LineTokens(o: Outcome, thisline: array<char>, word: seq<Part>, more: seq<Further>, end: string, env: Env)
    requires WordOk(word) && MoreOk(more) && IsEnd(end) && |more| < MAX_LINE_ARGS
    requires Tokenized(o, thisline, Split(WriteWord(word) + WriteMore(more, end), Plain, MAX_LINE_ARGS, env))
    ensures var ws := [WordMeans(word, env)] + MoreMean(more, env);
      if UpToNul(ws[0]) == "" then o == Blank(Complaints(false, false, false))
      else
        && o.Tokens? && o.c == Complaints(false, false, false) && !o.tooMany && |o.args| == |ws|
        && forall i :: 0 <= i < |ws| ==> Argument(o.args[i]) == UpToNul(ws[i])
  {
    LineReads(word, more, end, MAX_LINE_ARGS, env);
    var ws := [WordMeans(word, env)] + MoreMean(more, env);
    if o.Tokens? {
      forall i | 0 <= i < |ws| ensures Argument(o.args[i]) == UpToNul(ws[i]) { NamesIs(o.args[i], ws[i]); }
    }
  }

  lemma SplitLast(c: char, env: Env)
    requires Ordinary(c, Plain)
    ensures Split([c], Plain, MAX_LINE_ARGS, env) == Words([c], [], "", Plain, false)
  {
    CharReads(c, "", Plain, MAX_LINE_ARGS, env);
    EndReads("", Plain, MAX_LINE_ARGS, env);
    assert [c] + "" == [c];
  }

  lemma SplitOnward(s: string, out: string, tail: string, first: string, env: Env)
    requires ReadsAs(s, out, tail, Plain, MAX_LINE_ARGS, env)
    requires Split(tail, Plain, MAX_LINE_ARGS, env) == Words(first, [], "", Plain, false)
    ensures Split(s + tail, Plain, MAX_LINE_ARGS, env) == Words(out + first, [], "", Plain, false)
  {
  }

  lemma SplitNul(env: Env)
    ensures Split("a\\x00b", Plain, MAX_LINE_ARGS, env) == Words(['a', NUL, 'b'], [], "", Plain, false)
  {
    var escape, tail := ['\\', 'x', Digit(0, false), Digit(0, false)], ['b'];
    SplitLast('b', env);
    HexReads(0, false, 0, false, tail, Plain, MAX_LINE_ARGS, env);
    SplitOnward(escape, [NUL], tail, ['b'], env);
    CharReads('a', escape + tail, Plain, MAX_LINE_ARGS, env);
    SplitOnward(['a'], ['a'], escape + tail, [NUL] + ['b'], env);
    assert ['a'] + (escape + tail) == "a\\x00b" && ['a'] + ([NUL] + ['b']) == ['a', NUL, 'b'];
  }

  /** A line whose only word holds a zero: of the three characters only the first is left for the reader of the
      argument. */
  lemma NulCutsWord(o: Outcome, thisline: array<char>, env: Env)
    requires Tokenized(o, thisline, Split("a\\x00b", Plain, MAX_LINE_ARGS, env))
    ensures Split("a\\x00b", Plain, MAX_LINE_ARGS, env) == Words(['a', NUL, 'b'], [], "", Plain, false)
    ensures o.Tokens? && |o.args| == 1 && Argument(o.args[0]) == "a"
  {
    SplitNul(env);
    NamesIs(o.args[0], ['a', NUL, 'b']);
    assert UpToNul(['a', NUL, 'b']) == "a";
  }
}
