/**
  The tokenizer of configuration lines: quotes, escapes and variables are resolved in the line's own buffer.
 */
module Tokenizer {

  const MAX_LINE_ARGS := 64

  // ---- Characters ----

  predicate IsSpace(c: char)
  {
    c == ' ' || 9 as char <= c <= 13 as char
  }

  predicate IsAlpha(c: char)
  {
    'a' <= c <= 'z' || 'A' <= c <= 'Z'
  }

  predicate IsName(c: char)
  {
    IsAlpha(c) || '0' <= c <= '9' || c == '_'
  }

  predicate IsHex(c: char)
  {
    '0' <= c <= '9' || 'a' <= c <= 'f' || 'A' <= c <= 'F'
  }

  function HexValue(c: char): (v: nat)
    requires IsHex(c)
    ensures v < 16
  {
    if '0' <= c <= '9' then (c - '0') as nat
    else if 'a' <= c <= 'f' then 10 + (c - 'a') as nat
    else 10 + (c - 'A') as nat
  }

  const NUL := 0 as char
  const NEWLINE := 10 as char
  const RETURN := 13 as char
  const TAB := 9 as char

  // ---- The tokenizer as a function ----

  datatype Quote = Plain | Single | Double

  /** What the text at hand begins with, and how many characters that takes. */
  datatype Item =
    | Toggle(q: Quote)
    | Text(n: nat, out: string, bad: bool)
    | Break(n: nat)
    | End
    | Wrong

  function SpacesOf(s: string): (k: nat)
    ensures k <= |s|
  {
    if s == [] || !IsSpace(s[0]) then 0 else 1 + SpacesOf(s[1..])
  }

  function NameOf(s: string): (k: nat)
    ensures k <= |s|
  {
    if s == [] || !IsName(s[0]) then 0 else 1 + NameOf(s[1..])
  }

  /** The spaces are those before the first other character, and so are those of a name. */
  lemma {:induction false} SpaceAt(s: string, i: nat)
    requires i <= SpacesOf(s)
    ensures i < SpacesOf(s) <==> i < |s| && IsSpace(s[i])
  {
    if i > 0 { SpaceAt(s[1..], i - 1); }
  }

  lemma {:induction false} NameAt(s: string, i: nat)
    requires i <= NameOf(s)
    ensures i < NameOf(s) <==> i < |s| && IsName(s[i])
  {
    if i > 0 { NameAt(s[1..], i - 1); }
  }

  /** A backslash and what follows. Other pairs are left as they are, a character at a time. */
  function Escape(s: string, q: Quote): (r: Item)
    requires s != [] && s[0] == '\\'
    ensures r.Text? && 0 < r.n <= |s| && |r.out| == 1
  {
    if |s| == 1 then Text(1, "\\", false)
    else if s[1] == ' ' || s[1] == '\\' || s[1] == '#' || s[1] == '"' || s[1] == '\'' then Text(2, [s[1]], false)
    else if s[1] == 'r' then Text(2, [RETURN], false)
    else if s[1] == 'n' then Text(2, [NEWLINE], false)
    else if s[1] == 't' then Text(2, [TAB], false)
    else if s[1] == 'x' then
      if |s| > 3 && IsHex(s[2]) && IsHex(s[3]) then Text(4, [(16 * HexValue(s[2]) + HexValue(s[3])) as char], false)
      else Text(1, "\\", true)
    else if s[1] == '$' && q == Double then Text(2, "$", false)
    else Text(1, "\\", false)
  }

  /** What getenv knows; as C strings the values hold no zero. */
  type Env = e: map<string, string> | forall k :: k in e ==> NUL !in e[k]

  /** A dollar sign and the name of a variable, with or without braces. */
  function Variable(s: string, env: Env): (r: Item)
    requires s != [] && s[0] == '$'
    ensures r.Wrong? || (r.Text? && 0 < r.n <= |s|)
  {
    var braces := |s| > 1 && s[1] == '{';
    var beg := if braces then 2 else 1;
    if beg >= |s| || !(IsAlpha(s[beg]) || s[beg] == '_') then Wrong
    else
      var k := NameOf(s[beg..]);
      var name := s[beg..beg + k];
      var value := if name in env then env[name] else "";
      if !braces then Text(beg + k, value, false)
      else if beg + k < |s| && s[beg + k] == '}' then Text(beg + k + 1, value, false)
      else Wrong
  }

  function Next(s: string, q: Quote, env: Env): (r: Item)
    requires s != []
    ensures (r.Text? || r.Break?) ==> 0 < r.n <= |s|
  {
    if s[0] == '"' && q != Single then Toggle(if q == Double then Plain else Double)
    else if s[0] == '\'' && q != Double then Toggle(if q == Single then Plain else Single)
    else if s[0] == '\\' && q != Single then Escape(s, q)
    else if (q == Plain && s[0] == '#') || s[0] == NEWLINE || s[0] == RETURN then End
    else if q == Plain && IsSpace(s[0]) then Break(1 + SpacesOf(s[1..]))
    else if q == Double && s[0] == '$' then Variable(s, env)
    else Text(1, s[..1], false)
  }

  /** The words of a text: the first, which may go on one begun before, those after it, what is left if there
      are too many, the quotes left open, and whether an escape was malformed. */
  datatype Words = Words(first: string, more: seq<string>, rest: string, q: Quote, bad: bool) | Unusable

  /** What an item adds in front of the words of the rest. */
  function Extend(item: Item, r: Words): Words
  {
    if r.Unusable? then r
    else
      match item
      case Text(_, out, b) => r.(first := out + r.first, bad := b || r.bad)
      case Break(_) => r.(first := "", more := [r.first] + r.more)
      case _ => r
  }

  /** The words of s, at most room of them after the first. */
  function Split(s: string, q: Quote, room: nat, env: Env): Words
    decreases |s|
  {
    if s == [] || room == 0 then Words("", [], s, q, false)
    else
      var item := Next(s, q, env);
      match item
      case Toggle(q') => Split(s[1..], q', room, env)
      case Text(n, _, _) => Extend(item, Split(s[n..], q, room, env))
      case Break(n) => Extend(item, Split(s[n..], q, room - 1, env))
      case End => Words("", [], "", q, false)
      case Wrong => Unusable
  }

  // ---- Words as C strings ----

  /** What a C string in memory is: what precedes the first zero. */
  function UpToNul(s: string): (r: string)
    ensures |r| <= |s| && r == s[..|r|] && NUL !in r && (|r| < |s| ==> s[|r|] == NUL)
    ensures r == s <==> NUL !in s
  {
    if s == [] || s[0] == NUL then [] else [s[0]] + UpToNul(s[1..])
  }

  /** The text at hand begins with an escape that stands for a zero. */
  predicate NulEscape(s: string, q: Quote)
  {
    |s| > 3 && s[0] == '\\' && s[1] == 'x' && s[2] == '0' && s[3] == '0' && q != Single
  }

  /** Such an escape is read in the text. */
  predicate ReadsNul(s: string, q: Quote, room: nat, env: Env)
    decreases |s|
  {
    s != [] && room > 0 &&
    (NulEscape(s, q) ||
    match Next(s, q, env)
    case Toggle(q') => ReadsNul(s[1..], q', room, env)
    case Text(n, _, _) => ReadsNul(s[n..], q, room, env)
    case Break(n) => ReadsNul(s[n..], q, room - 1, env)
    case _ => false)
  }

  /** The words of a text, in the order of the arguments. */
  ghost function All(ws: Words): seq<string>
    requires !ws.Unusable?
  {
    [ws.first] + ws.more
  }

  ghost predicate NulFree(ws: seq<string>)
  {
    forall i :: 0 <= i < |ws| ==> NUL !in ws[i]
  }

  lemma NextNul(s: string, q: Quote, env: Env)
    requires s != [] && NUL !in s && Next(s, q, env).Text?
    ensures NUL in Next(s, q, env).out <==> NulEscape(s, q)
  {
    assert s[0] in s && (|s| > 1 ==> s[1] in s);
  }

  /** A word holds a zero if and only if an escape for it is read. */
  lemma {:induction false} NulIff(s: string, q: Quote, room: nat, env: Env)
    requires NUL !in s && !Split(s, q, room, env).Unusable?
    ensures NulFree(All(Split(s, q, room, env))) <==> !ReadsNul(s, q, room, env)
    decreases |s|
  {
    if s != [] && room > 0 {
      match Next(s, q, env)
      case Toggle(q') =>
        NulIff(s[1..], q', room, env);
      case Text(n, out, bad) =>
        NulIff(s[n..], q, room, env);
        NextNul(s, q, env);
        NulFirst(out, Split(s[n..], q, room, env));
      case Break(n) =>
        NulIff(s[n..], q, room - 1, env);
        NulBreak(Split(s[n..], q, room - 1, env));
      case End =>
      case Wrong =>
    }
  }

  lemma NulFirst(out: string, r: Words)
    requires !r.Unusable?
    ensures NulFree(All(r.(first := out + r.first))) <==> NUL !in out && NulFree(All(r))
  {
    var a, b := All(r.(first := out + r.first)), All(r);
    assert a[0] == out + r.first && b[0] == r.first;
    assert forall i :: 0 < i < |a| ==> a[i] == b[i];
  }

  lemma NulBreak(r: Words)
    requires !r.Unusable?
    ensures NulFree(All(r.(first := "", more := [r.first] + r.more))) <==> NulFree(All(r))
  {
    var a, b := All(r.(first := "", more := [r.first] + r.more)), All(r);
    assert forall i :: 0 <= i < |b| ==> a[i + 1] == b[i];
    assert a[0] == "";
  }

  lemma LastOfText(r: Words, first: string, room: nat)
    requires !r.Unusable? && |r.more| == room && room > 0 && All(r)[room] == ""
    ensures r.more[room - 1] == "" && ([first] + r.more)[room] == ""
  {
  }

  /** With too many words nothing has been read yet of the last one. */
  lemma {:induction false} LastEmpty(s: string, q: Quote, room: nat, env: Env)
    requires !Split(s, q, room, env).Unusable? && Split(s, q, room, env).rest != ""
    ensures var w := All(Split(s, q, room, env)); |w| == room + 1 && w[room] == ""
    decreases |s|
  {
    if s != [] && room > 0 {
      match Next(s, q, env)
      case Toggle(q') => LastEmpty(s[1..], q', room, env);
      case Text(n, out, bad) =>
        LastEmpty(s[n..], q, room, env);
        LastOfText(Split(s[n..], q, room, env), out + Split(s[n..], q, room, env).first, room);
      case Break(n) =>
        LastEmpty(s[n..], q, room - 1, env);
      case End =>
      case Wrong =>
    }
  }

  // ---- The tokenizer in the line's buffer ----

  /** The buffer up to line holds what is done, and from there to end what is still to be read. */
  ghost predicate View(buf: seq<char>, line: nat, end: nat, done: string, unread: string)
  {
    && line + |unread| == end < |buf| && buf[..line] == done && buf[line..end] == unread && buf[end] == NUL
    && forall i :: 0 <= i < |unread| ==> unread[i] != NUL
  }

  /** memmove within the buffer. */
  method Move(a: array<char>, dst: nat, src: nat, n: nat)
    requires dst + n <= a.Length && src + n <= a.Length
    modifies a
    ensures a[..] == old(a[..dst]) + old(a[src..src + n]) + old(a[dst + n..])
  {
    forall i | 0 <= i < n {
      a[dst + i] := a[src + i];
    }
  }

  /** memcpy from elsewhere. */
  method Put(a: array<char>, dst: nat, s: string)
    requires dst + |s| <= a.Length
    modifies a
    ensures a[..] == old(a[..dst]) + s + old(a[dst + |s|..])
  {
    forall i | 0 <= i < |s| {
      a[dst + i] := s[i];
    }
  }

  /** The first n unread characters are replaced by out, which then is done; the rest moves up or down. */
  lemma Replaced(buf: seq<char>, buf': seq<char>, line: nat, end: nat, done: string, unread: string, n: nat,
      out: string)
    requires View(buf, line, end, done, unread) && n <= |unread| && line + |out| + (end - line - n) < |buf'|
    requires buf'[..line] == done && buf'[line..line + |out|] == out
    requires buf'[line + |out|..line + |out| + (end - line - n) + 1] == buf[line + n..end + 1]
    ensures View(buf', line + |out|, end + |out| - n, done + out, unread[n..])
  {
    var l, e := line + |out|, end + |out| - n;
    assert buf'[..l] == buf'[..line] + buf'[line..l];
    var tail := buf[line + n..end + 1];
    assert buf'[l..e] == tail[..e - l] && buf'[e] == tail[e - l];
    assert buf[line..end][n..] == tail[..e - l];
  }

  /** A quote: the rest of the line moves over it. */
  method DropQuote(a: array<char>, line: nat, end: nat, ghost done: string, ghost unread: string) returns (end': nat)
    requires View(a[..], line, end, done, unread) && unread != []
    modifies a
    ensures View(a[..], line, end', done, unread[1..])
  {
    ghost var buf := a[..];
    Move(a, line, line + 1, end - line);
    end' := end - 1;
    ghost var buf' := a[..];
    assert buf'[line..line + (end - line)] == buf[line + 1..end + 1];
    Replaced(buf, buf', line, end, done, unread, 1, []);
    assert done + [] == done;
  }

  /** A character that stands for the n at hand: it overwrites the first and the others go. */
  method Substitute(a: array<char>, line: nat, end: nat, c: char, n: nat, ghost done: string, ghost unread: string)
    returns (end': nat)
    requires View(a[..], line, end, done, unread) && 0 < n <= |unread|
    modifies a
    ensures View(a[..], line + 1, end', done + [c], unread[n..])
  {
    ghost var buf := a[..];
    a[line] := c;
    ghost var buf1 := a[..];
    var skip := n - 1;
    end' := end;
    if skip > 0 {
      Move(a, line + 1, line + 1 + skip, end - (line + skip));
      end' := end - skip;
    }
    ghost var buf' := a[..];
    assert buf1[line + n..end + 1] == buf[line + n..end + 1];
    assert buf'[line + 1..line + 1 + (end - line - n) + 1] == buf1[line + n..end + 1];
    Replaced(buf, buf', line, end, done, unread, n, [c]);
  }

  // ---- The words found so far ----

  /** A pointer into a buffer. */
  datatype Ptr = Ptr(base: array<char>, off: nat)

  /** Of what is done the pointers pick out finished words, each with its final zero, and the one begun. */
  ghost predicate Held(done: string, args: seq<Ptr>, words: seq<string>, cur: string)
  {
    && |args| == |words| + 1
    && (forall i :: 0 <= i < |words| ==>
          && args[i].off + |words[i]| < |done|
          && done[args[i].off..args[i].off + |words[i]|] == words[i] && done[args[i].off + |words[i]|] == NUL)
    && args[|words|].off + |cur| == |done| && done[args[|words|].off..] == cur
  }

  lemma HeldMore(done: string, args: seq<Ptr>, words: seq<string>, cur: string, out: string)
    requires Held(done, args, words, cur)
    ensures Held(done + out, args, words, cur + out)
  {
    var done' := done + out;
    forall i | 0 <= i < |words|
      ensures done'[args[i].off..args[i].off + |words[i]|] == words[i] && done'[args[i].off + |words[i]|] == NUL
    {
      assert done'[args[i].off..args[i].off + |words[i]|] == done[args[i].off..args[i].off + |words[i]|];
    }
  }

  lemma HeldBreak(done: string, args: seq<Ptr>, words: seq<string>, cur: string, gap: string, p: Ptr)
    requires Held(done, args, words, cur) && p.off == |done| + 1 + |gap|
    ensures Held(done + [NUL] + gap, args + [p], words + [cur], "")
  {
    var done', n := done + [NUL] + gap, |words|;
    forall i | 0 <= i < n
      ensures done'[args[i].off..args[i].off + |words[i]|] == words[i] && done'[args[i].off + |words[i]|] == NUL
    {
      assert done'[args[i].off..args[i].off + |words[i]|] == done[args[i].off..args[i].off + |words[i]|];
    }
    assert done'[args[n].off..args[n].off + |cur|] == done[args[n].off..] == cur;
  }

  lemma HeldMoved(done: string, args: seq<Ptr>, args': seq<Ptr>, words: seq<string>, cur: string)
    requires Held(done, args, words, cur)
    requires |args'| == |args| && forall i :: 0 <= i < |args| ==> args'[i].off == args[i].off
    ensures Held(done, args', words, cur)
  {
  }

  /** What the rest of the words make with those found so far. */
  ghost function Joined(words: seq<string>, cur: string, bad: bool, r: Words): Words
  {
    if r.Unusable? then r
    else
      var all := words + [cur + r.first] + r.more;
      Words(all[0], all[1..], r.rest, r.q, bad || r.bad)
  }

  lemma JoinedText(words: seq<string>, cur: string, bad: bool, out: string, bad': bool, r: Words)
    requires !r.Unusable?
    ensures Joined(words, cur, bad, r.(first := out + r.first, bad := bad' || r.bad)) ==
      Joined(words, cur + out, bad || bad', r)
  {
    assert cur + (out + r.first) == cur + out + r.first;
  }

  lemma JoinedBreak(words: seq<string>, cur: string, bad: bool, r: Words)
    requires !r.Unusable?
    ensures Joined(words, cur, bad, r.(first := "", more := [r.first] + r.more)) == Joined(words + [cur], "", bad, r)
  {
    assert cur + "" == cur && "" + r.first == r.first;
    assert words + [cur] + ([r.first] + r.more) == words + [cur] + [r.first] + r.more;
  }

  // ---- Variables, which may need a larger buffer ----

  /** The pointers into a buffer that has been moved. */
  method Rebase(args: seq<Ptr>, newline: array<char>) returns (args': seq<Ptr>)
    ensures |args'| == |args| && forall i :: 0 <= i < |args| ==> args'[i] == Ptr(newline, args[i].off)
  {
    args' := args;
    for i := 0 to |args|
      invariant |args'| == |args|
      invariant forall j :: 0 <= j < i ==> args'[j] == Ptr(newline, args[j].off)
      invariant forall j :: i <= j < |args| ==> args'[j] == args[j]
    {
      var diff := args'[i].off;
      args' := args'[i := Ptr(newline, diff)];
    }
  }

  /** A buffer of the new size with the contents of the old one. */
  method Grow(thisline: array<char>, newlinesize: nat) returns (newline: array<char>)
    requires thisline.Length < newlinesize
    ensures fresh(newline) && newline.Length == newlinesize && newline[..thisline.Length] == thisline[..]
  {
    newline := new char[newlinesize](_ => NUL);
    forall i | 0 <= i < thisline.Length {
      newline[i] := thisline[i];
    }
  }

  lemma ViewGrown(buf: seq<char>, buf': seq<char>, line: nat, end: nat, done: string, unread: string)
    requires View(buf, line, end, done, unread) && |buf| <= |buf'| && buf'[..|buf|] == buf
    ensures View(buf', line, end, done, unread)
  {
    assert buf'[..line] == buf[..line] && buf'[line..end] == buf[line..end] && buf'[end] == buf[end];
  }

  /** Inserts the value of a variable in the place of the n characters that name it. */
  method Insert(a: array<char>, line: nat, end: nat, n: nat, value: string, ghost done: string, ghost unread: string)
    returns (end': nat)
    requires View(a[..], line, end, done, unread) && n <= |unread| && end - n + |value| + 1 <= a.Length
    modifies a
    ensures View(a[..], line + |value|, end', done + value, unread[n..])
  {
    ghost var buf1 := a[..];
    var l, src := line + |value|, line + n;
    var tail := end - src + 1;
    Move(a, l, src, tail);
    ghost var buf2 := a[..];
    Put(a, line, value);
    end' := end - n + |value|;
    Inserted(buf1, buf2, a[..], line, end, n, value, l, src, tail, done, unread);
  }

  lemma Inserted(buf1: seq<char>, buf2: seq<char>, buf3: seq<char>, line: nat, end: nat, n: nat, value: string, l: nat,
      src: nat, tail: nat, done: string, unread: string)
    requires View(buf1, line, end, done, unread) && n <= |unread|
    requires l == line + |value| && src == line + n && src + tail == end + 1 && l + tail <= |buf1|
    requires buf2 == buf1[..l] + buf1[src..src + tail] + buf1[l + tail..]
    requires buf3 == buf2[..line] + value + buf2[line + |value|..]
    ensures View(buf3, l, end - n + |value|, done + value, unread[n..])
  {
    assert buf3[..line] == buf1[..line];
    assert buf3[l..l + tail] == buf2[l..l + tail] == buf1[src..src + tail];
    assert l + tail == line + |value| + (end - line - n) + 1;
    Replaced(buf1, buf3, line, end, done, unread, n, value);
  }

  /** The expansion of a variable, in a larger buffer if need be. */
  method Expand(thisline0: array<char>, line: nat, end: nat, n: nat, value: string, args0: seq<Ptr>,
      ghost done: string, ghost unread: string)
    returns (thisline: array<char>, end': nat, args: seq<Ptr>)
    requires View(thisline0[..], line, end, done, unread) && n <= |unread|
    requires forall i :: 0 <= i < |args0| ==> args0[i].base == thisline0
    modifies thisline0
    ensures thisline == thisline0 || fresh(thisline)
    ensures View(thisline[..], line + |value|, end', done + value, unread[n..])
    ensures |args| == |args0| && forall i :: 0 <= i < |args| ==> args[i] == Ptr(thisline, args0[i].off)
  {
    thisline, args := thisline0, args0;
    var newlinesize := end - n + |value| + 1;
    if newlinesize > thisline.Length {
      thisline := Grow(thisline0, newlinesize);
      args := Rebase(args0, thisline);
      ViewGrown(thisline0[..], thisline[..], line, end, done, unread);
    }
    end' := Insert(thisline, line, end, n, value, done, unread);
  }

  // ---- The loop over a line ----

  /** What has been done of the line, what is still to be read, the words found and the one begun. */
  datatype Found = Found(done: string, unread: string, words: seq<string>, cur: string)

  /** The position of the tokenizer in its buffer. */
  datatype Place = Place(thisline: array<char>, line: nat, end: nat, args: seq<Ptr>, q: Quote, bad: bool)

  /** The buffer and the pointers into it hold what has been found. */
  ghost predicate Stands(p: Place, g: Found)
    reads p.thisline
  {
    && View(p.thisline[..], p.line, p.end, g.done, g.unread)
    && (forall i :: 0 <= i < |p.args| ==> p.args[i].base == p.thisline)
    && Held(g.done, p.args, g.words, g.cur)
  }

  /** The words found are those of the line, but for what the function makes of the rest. */
  ghost predicate Reads(goal: Words, env: Env, q: Quote, bad: bool, g: Found)
  {
    && |g.words| <= MAX_LINE_ARGS
    && goal == Joined(g.words, g.cur, bad, Split(g.unread, q, MAX_LINE_ARGS - |g.words|, env))
  }

  /** One item has been taken from the text at hand. */
  ghost predicate Takes(item: Item, q: Quote, bad: bool, g: Found, q': Quote, bad': bool, g': Found)
  {
    TakesText(item, q, g.unread, q', g'.unread) && TakesWord(item, bad, g.words, g.cur, bad', g'.words, g'.cur)
  }

  ghost predicate TakesText(item: Item, q: Quote, s: string, q': Quote, s': string)
  {
    match item
    case Toggle(q1) => q' == q1 && s != [] && s' == s[1..]
    case Text(n, _, _) => q' == q && 0 < n <= |s| && s' == s[n..]
    case Break(n) => q' == q && 0 < n <= |s| && s' == s[n..]
    case _ => false
  }

  ghost predicate TakesWord(item: Item, bad: bool, words: seq<string>, cur: string, bad': bool, words': seq<string>,
      cur': string)
  {
    match item
    case Text(_, out, b) => bad' == (bad || b) && words' == words && cur' == cur + out
    case Break(_) => bad' == bad && words' == words + [cur] && cur' == ""
    case _ => bad' == bad && words' == words && cur' == cur
  }

  lemma SplitOn(s: string, q: Quote, room: nat, env: Env, item: Item, s': string, q': Quote)
    requires s != [] && room > 0 && item == Next(s, q, env) && TakesText(item, q, s, q', s')
    ensures Split(s, q, room, env) == Extend(item, Split(s', q', if item.Break? then room - 1 else room, env))
  {
  }

  lemma JoinedOn(item: Item, r: Words, bad: bool, words: seq<string>, cur: string, bad': bool, words': seq<string>,
      cur': string)
    requires TakesWord(item, bad, words, cur, bad', words', cur')
    ensures Joined(words, cur, bad, Extend(item, r)) == Joined(words', cur', bad', r)
    ensures |words'| == if item.Break? then |words| + 1 else |words|
  {
    if !r.Unusable? {
      if item.Text? { JoinedText(words, cur, bad, item.out, item.bad, r); }
      if item.Break? { JoinedBreak(words, cur, bad, r); }
    }
  }

  /** The words found stay those of the line. */
  lemma ReadsOn(goal: Words, env: Env, q: Quote, bad: bool, g: Found, item: Item, q': Quote, bad': bool, g': Found)
    requires Reads(goal, env, q, bad, g) && g.unread != [] && |g.words| < MAX_LINE_ARGS
    requires item == Next(g.unread, q, env) && Takes(item, q, bad, g, q', bad', g')
    ensures Reads(goal, env, q', bad', g') && |g'.unread| < |g.unread|
  {
    var room := MAX_LINE_ARGS - |g.words|;
    var r := Split(g'.unread, q', if item.Break? then room - 1 else room, env);
    SplitOn(g.unread, q, room, env, item, g'.unread, q');
    JoinedOn(item, r, bad, g.words, g.cur, bad', g'.words, g'.cur);
  }

  lemma ReadsWrong(goal: Words, env: Env, q: Quote, bad: bool, g: Found)
    requires Reads(goal, env, q, bad, g) && g.unread != [] && |g.words| < MAX_LINE_ARGS
    requires Next(g.unread, q, env) == Wrong
    ensures goal.Unusable?
  {
  }

  /** The character at an offset from line: the final zero is one past the unread ones. */
  lemma At(buf: seq<char>, line: nat, end: nat, done: string, unread: string, i: nat)
    requires View(buf, line, end, done, unread) && i <= |unread|
    ensures buf[line + i] == if i < |unread| then unread[i] else NUL
    ensures i < |unread| ==> unread[i] != NUL
  {
    assert i < |unread| ==> buf[line..end][i] == buf[line + i];
  }

  /** The first k unread characters are left as they are. */
  lemma ViewOn(buf: seq<char>, line: nat, end: nat, done: string, unread: string, k: nat)
    requires View(buf, line, end, done, unread) && k <= |unread|
    ensures View(buf, line + k, end, done + unread[..k], unread[k..])
  {
    assert buf[..line + k] == buf[..line] + buf[line..end][..k];
    assert buf[line + k..end] == buf[line..end][k..];
  }

  method SkipSpaces(thisline: array<char>, line0: nat, end: nat, ghost done: string, ghost unread: string)
    returns (line: nat)
    requires View(thisline[..], line0, end, done, unread)
    ensures line == line0 + SpacesOf(unread)
    ensures View(thisline[..], line, end, done + unread[..SpacesOf(unread)], unread[SpacesOf(unread)..])
  {
    line := line0;
    ghost var buf, k, n := thisline[..], 0, SpacesOf(unread);
    At(buf, line0, end, done, unread, 0);
    SpaceAt(unread, 0);
    while IsSpace(thisline[line])
      invariant k <= n && line == line0 + k && line0 + n <= end
      invariant IsSpace(thisline[line]) <==> k < n
      decreases n - k
    {
      k, line := k + 1, line + 1;
      At(buf, line0, end, done, unread, k);
      SpaceAt(unread, k);
    }
    ViewOn(buf, line0, end, done, unread, k);
  }

  /** A space outside quotes: the word ends, and the next one begins after all spaces. */
  method TurnBreak(p: Place, ghost g: Found) returns (p': Place, ghost g': Found)
    requires Stands(p, g) && g.unread != []
    modifies p.thisline
    ensures p'.thisline == p.thisline && Stands(p', g')
    ensures Takes(Break(1 + SpacesOf(g.unread[1..])), p.q, p.bad, g, p'.q, p'.bad, g')
  {
    var line;
    ghost var gap;
    line, gap := CutWord(p.thisline, p.line, p.end, g.done, g.unread);
    HeldBreak(g.done, p.args, g.words, g.cur, gap, Ptr(p.thisline, line));
    p' := p.(line := line, args := p.args + [Ptr(p.thisline, line)]);
    g' := Found(g.done + [NUL] + gap, g.unread[1 + |gap|..], g.words + [g.cur], "");
  }

  method CutWord(thisline: array<char>, line0: nat, end: nat, ghost done: string, ghost unread: string)
    returns (line: nat, ghost gap: string)
    requires View(thisline[..], line0, end, done, unread) && unread != []
    modifies thisline
    ensures |gap| == SpacesOf(unread[1..]) && line == |done| + 1 + |gap|
    ensures View(thisline[..], line, end, done + [NUL] + gap, unread[1 + |gap|..])
  {
    ghost var buf, rest := thisline[..], unread[1..];
    thisline[line0] := NUL;
    assert thisline[line0 + 1..end + 1] == buf[line0 + 1..end + 1];
    Replaced(buf, thisline[..], line0, end, done, unread, 1, [NUL]);
    line := SkipSpaces(thisline, line0 + 1, end, done + [NUL], rest);
    gap := rest[..SpacesOf(rest)];
    assert rest[SpacesOf(rest)..] == unread[1 + SpacesOf(rest)..];
  }

  /** A backslash: what it and the characters after it stand for. */
  method ScanEscape(thisline: array<char>, line: nat, end: nat, q: Quote, ghost done: string, ghost unread: string)
    returns (c: char, n: nat, bad: bool)
    requires View(thisline[..], line, end, done, unread) && unread != [] && unread[0] == '\\'
    ensures Escape(unread, q) == Text(n, [c], bad)
  {
    c, n, bad := '\\', 1, false;
    At(thisline[..], line, end, done, unread, 1);
    if line + 3 < end {
      At(thisline[..], line, end, done, unread, 2);
      At(thisline[..], line, end, done, unread, 3);
    }
    var d := thisline[line + 1];
    if d == ' ' || d == '\\' || d == '#' {
      c, n := d, 2;
    } else if d == 'r' {
      c, n := RETURN, 2;
    } else if d == 'n' {
      c, n := NEWLINE, 2;
    } else if d == 't' {
      c, n := TAB, 2;
    } else if d == 'x' {
      if line + 3 < end && IsHex(thisline[line + 2]) && IsHex(thisline[line + 3]) {
        c, n := (16 * HexValue(thisline[line + 2]) + HexValue(thisline[line + 3])) as char, 4;
      } else {
        bad := true;
      }
    } else if d == '"' {
      c, n := '"', 2;
    } else if d == '\'' {
      c, n := '\'', 2;
    } else if d == '$' && q == Double {
      c, n := '$', 2;
    }
  }

  lemma Between(buf: seq<char>, line: nat, end: nat, done: string, unread: string, a: nat, b: nat)
    requires View(buf, line, end, done, unread) && a <= b <= |unread|
    ensures buf[line + a..line + b] == unread[a..b]
  {
    assert buf[line + a..line + b] == buf[line..end][a..b];
  }

  lemma NameGoesOn(unread: string, beg: nat, i: nat)
    requires beg <= |unread| && i <= NameOf(unread[beg..])
    ensures i < NameOf(unread[beg..]) <==> beg + i < |unread| && IsName(unread[beg + i])
  {
    var rest := unread[beg..];
    NameAt(rest, i);
    assert i < |rest| ==> rest[i] == unread[beg + i];
  }

  /** How long the name is that begins beg characters after line. */
  method NameLength(thisline: array<char>, line: nat, end: nat, beg: nat, ghost done: string, ghost unread: string)
    returns (len: nat)
    requires View(thisline[..], line, end, done, unread) && beg <= |unread|
    ensures len == NameOf(unread[beg..]) && beg + len <= |unread|
  {
    ghost var buf, i, n := thisline[..], 0, NameOf(unread[beg..]);
    var var_end := line + beg;
    At(buf, line, end, done, unread, beg);
    NameGoesOn(unread, beg, 0);
    while IsName(thisline[var_end])
      invariant i <= n && var_end == line + beg + i && beg + n <= |unread|
      invariant IsName(thisline[var_end]) <==> i < n
      decreases n - i
    {
      i, var_end := i + 1, var_end + 1;
      At(buf, line, end, done, unread, beg + i);
      NameGoesOn(unread, beg, i);
    }
    len := var_end - line - beg;
  }

  /** The name that begins beg characters after line. */
  method ScanName(thisline: array<char>, line: nat, end: nat, beg: nat, ghost done: string, ghost unread: string)
    returns (len: nat, name: string)
    requires View(thisline[..], line, end, done, unread) && beg <= |unread|
    ensures len == NameOf(unread[beg..]) && beg + len <= |unread| && name == unread[beg..beg + len]
  {
    len := NameLength(thisline, line, end, beg, done, unread);
    Between(thisline[..], line, end, done, unread, beg, beg + len);
    name := thisline[line + beg..line + beg + len];
  }

  /** A dollar sign: the variable named after it. */
  method ScanVariable(thisline: array<char>, line: nat, end: nat, env: Env, ghost done: string, ghost unread: string)
    returns (ok: bool, n: nat, value: string)
    requires View(thisline[..], line, end, done, unread) && unread != [] && unread[0] == '$'
    ensures Variable(unread, env) == if ok then Text(n, value, false) else Wrong
  {
    ok, n, value := false, 1, "";
    ghost var buf := thisline[..];
    At(buf, line, end, done, unread, 1);
    var braces := thisline[line + 1] == '{';
    var beg := if braces then 2 else 1;
    At(buf, line, end, done, unread, beg);
    if !IsAlpha(thisline[line + beg]) && thisline[line + beg] != '_' { return; }
    var len, name := ScanName(thisline, line, end, beg, done, unread);
    value := if name in env then env[name] else "";
    n := beg + len;
    At(buf, line, end, done, unread, n);
    if braces {
      if thisline[line + n] != '}' { return; }
      n := n + 1;
    }
    ok := true;
  }

  /** A pointer to a zero-terminated string. */
  ghost predicate Names(p: Ptr, buf: seq<char>, w: string)
  {
    p.off + |w| < |buf| && buf[p.off..p.off + |w|] == w && buf[p.off + |w|] == NUL
  }

  lemma SliceWithin(buf: seq<char>, line: nat, a: nat, b: nat)
    requires a <= b <= line <= |buf|
    ensures buf[a..b] == buf[..line][a..b]
  {
  }

  /** Once the last word has its final zero all pointers name their words. */
  lemma AllNamed(buf: seq<char>, line: nat, done: string, args: seq<Ptr>, words: seq<string>, cur: string)
    requires line < |buf| && buf[..line] == done && buf[line] == NUL && Held(done, args, words, cur)
    ensures |args| == |words| + 1 && forall i :: 0 <= i < |args| ==> Names(args[i], buf, (words + [cur])[i])
  {
    forall i | 0 <= i < |args| ensures Names(args[i], buf, (words + [cur])[i]) {
      var w, o := (words + [cur])[i], args[i].off;
      SliceWithin(buf, line, o, o + |w|);
      if i < |words| { assert buf[o + |w|] == buf[..line][o + |w|]; }
    }
  }

  /** The complaints about a line: quotes left open, and a malformed escape. */
  datatype Complaints = Complaints(dquote: bool, squote: bool, bad: bool)

  /** What becomes of a line: a scope marker, nothing, nothing but complaints, or words with the complaints
      about them. */
  datatype Outcome =
    | ScopeMark
    | Skipped
    | Blank(c: Complaints)
    | Tokens(args: seq<Ptr>, c: Complaints, tooMany: bool)

  /** The line has no first argument. */
  ghost predicate IsBlank(ws: Words)
  {
    !ws.Unusable? && UpToNul(ws.first) == ""
  }

  /** The tokens of the buffer are the words of the text, unless there is no first one. */
  ghost predicate Tokenized(o: Outcome, thisline: array<char>, ws: Words)
    reads thisline
  {
    && !ws.Unusable?
    && var c := Complaints(ws.q == Double, ws.q == Single, ws.bad);
       if IsBlank(ws) then o == Blank(c)
       else
         && o.Tokens? && o.c == c && o.tooMany == (ws.rest != "") && |o.args| == |All(ws)|
         && forall i :: 0 <= i < |o.args| ==> o.args[i].base == thisline && Names(o.args[i], thisline[..], All(ws)[i])
  }

  /** The C string that an argument points to. */
  ghost function Argument(p: Ptr): string
    reads p.base
  {
    if p.off <= p.base.Length then UpToNul(p.base[p.off..]) else []
  }

  lemma NamesIs(p: Ptr, w: string)
    requires Names(p, p.base[..], w)
    ensures Argument(p) == UpToNul(w)
  {
    var t := p.base[p.off..];
    assert p.base[..][p.off..p.off + |w|] == t[..|w|] && t[|w|] == NUL;
    CutAtNul(t, w);
  }

  lemma {:induction false} CutAtNul(t: string, w: string)
    requires |w| < |t| && t[..|w|] == w && t[|w|] == NUL
    ensures UpToNul(t) == UpToNul(w)
  {
    if w != [] {
      assert t[0] == t[..|w|][0] && t[1..][..|w| - 1] == t[..|w|][1..];
      CutAtNul(t[1..], w[1..]);
    }
  }

  /** Each argument is its word up to the first zero, so all are just the words if and only if no escape for a
      zero is read in the line. */
  lemma ArgumentsAre(o: Outcome, thisline: array<char>, line: string, env: Env)
    requires NUL !in line && o.Tokens? && Tokenized(o, thisline, Split(line, Plain, MAX_LINE_ARGS, env))
    ensures var ws := Split(line, Plain, MAX_LINE_ARGS, env);
      && |o.args| == |All(ws)|
      && (forall i :: 0 <= i < |o.args| ==> Argument(o.args[i]) == UpToNul(All(ws)[i]))
      && ((forall i :: 0 <= i < |o.args| ==> Argument(o.args[i]) == All(ws)[i]) <==>
        !ReadsNul(line, Plain, MAX_LINE_ARGS, env))
  {
    var ws := Split(line, Plain, MAX_LINE_ARGS, env);
    forall i | 0 <= i < |o.args| ensures Argument(o.args[i]) == UpToNul(All(ws)[i]) { NamesIs(o.args[i], All(ws)[i]); }
    NulIff(line, Plain, MAX_LINE_ARGS, env);
  }

  /** What one turn ends with. */
  datatype Status = Going | Stopped | Failed

  /** The first character is a variable inside double quotes. */
  method TurnVariable(env: Env, p: Place, ghost g: Found) returns (ok: bool, p': Place, ghost g': Found)
    requires Stands(p, g) && g.unread != [] && g.unread[0] == '$'
    modifies p.thisline
    ensures p'.thisline == p.thisline || fresh(p'.thisline)
    ensures ok ==> Stands(p', g') && Takes(Variable(g.unread, env), p.q, p.bad, g, p'.q, p'.bad, g')
    ensures !ok ==> Variable(g.unread, env) == Wrong
  {
    p', g' := p, g;
    var n, value;
    ok, n, value := ScanVariable(p.thisline, p.line, p.end, env, g.done, g.unread);
    if ok {
      var thisline, end, args := Expand(p.thisline, p.line, p.end, n, value, p.args, g.done, g.unread);
      HeldMore(g.done, p.args, g.words, g.cur, value);
      HeldMoved(g.done + value, p.args, args, g.words, g.cur + value);
      p' := Place(thisline, p.line + |value|, end, args, p.q, p.bad);
      g' := Found(g.done + value, g.unread[n..], g.words, g.cur + value);
    }
  }

  /** A quote outside the other kind of quotes. */
  method TurnQuotes(p: Place, q: Quote, ghost g: Found) returns (p': Place, ghost g': Found)
    requires Stands(p, g) && g.unread != []
    modifies p.thisline
    ensures p'.thisline == p.thisline && Stands(p', g') && Takes(Toggle(q), p.q, p.bad, g, p'.q, p'.bad, g')
  {
    var end := DropQuote(p.thisline, p.line, p.end, g.done, g.unread);
    p', g' := p.(end := end, q := q), g.(unread := g.unread[1..]);
  }

  /** A backslash, and what it takes with it. */
  method TurnEscape(p: Place, ghost g: Found) returns (p': Place, ghost g': Found)
    requires Stands(p, g) && g.unread != [] && g.unread[0] == '\\'
    modifies p.thisline
    ensures p'.thisline == p.thisline && Stands(p', g')
    ensures Takes(Escape(g.unread, p.q), p.q, p.bad, g, p'.q, p'.bad, g')
  {
    var c, n, bad := ScanEscape(p.thisline, p.line, p.end, p.q, g.done, g.unread);
    var end := Substitute(p.thisline, p.line, p.end, c, n, g.done, g.unread);
    HeldMore(g.done, p.args, g.words, g.cur, [c]);
    p' := p.(line := p.line + 1, end := end, bad := p.bad || bad);
    g' := Found(g.done + [c], g.unread[n..], g.words, g.cur + [c]);
  }

  /** A character that stands for itself. */
  method TurnChar(p: Place, ghost g: Found) returns (p': Place, ghost g': Found)
    requires Stands(p, g) && g.unread != []
    ensures p'.thisline == p.thisline && Stands(p', g')
    ensures Takes(Text(1, g.unread[..1], false), p.q, p.bad, g, p'.q, p'.bad, g')
  {
    ViewOn(p.thisline[..], p.line, p.end, g.done, g.unread, 1);
    HeldMore(g.done, p.args, g.words, g.cur, g.unread[..1]);
    p' := p.(line := p.line + 1);
    g' := Found(g.done + g.unread[..1], g.unread[1..], g.words, g.cur + g.unread[..1]);
  }

  /** One turn of the loop, at a character other than the final zero: it takes the next item. */
  method Turn(env: Env, p: Place, ghost g: Found) returns (status: Status, p': Place, ghost g': Found)
    requires Stands(p, g) && g.unread != []
    modifies p.thisline
    ensures p'.thisline == p.thisline || fresh(p'.thisline)
    ensures status == Failed <==> Next(g.unread, p.q, env) == Wrong
    ensures status == Stopped <==> Next(g.unread, p.q, env) == End
    ensures status == Stopped ==> p' == p && g' == g
    ensures status == Going ==> Takes(Next(g.unread, p.q, env), p.q, p.bad, g, p'.q, p'.bad, g')
    ensures status != Failed ==> Stands(p', g')
  {
    At(p.thisline[..], p.line, p.end, g.done, g.unread, 0);
    var c := p.thisline[p.line];
    status, p', g' := Going, p, g;
    if c == '"' && p.q != Single {
      p', g' := TurnQuotes(p, if p.q == Double then Plain else Double, g);
    } else if c == '\'' && p.q != Double {
      p', g' := TurnQuotes(p, if p.q == Single then Plain else Single, g);
    } else if c == '\\' && p.q != Single {
      p', g' := TurnEscape(p, g);
    } else if (p.q == Plain && c == '#') || c == NEWLINE || c == RETURN {
      // nothing after it counts
      status := Stopped;
    } else if p.q == Plain && IsSpace(c) {
      p', g' := TurnBreak(p, g);
    } else if p.q == Double && c == '$' {
      var ok;
      ok, p', g' := TurnVariable(env, p, g);
      if !ok { status := Failed; }
    } else {
      p', g' := TurnChar(p, g);
    }
  }

  /** The words found are all those of the line, but for what is left if there are too many. */
  ghost predicate Complete(goal: Words, q: Quote, bad: bool, g: Found, rest: string)
  {
    var all := g.words + [g.cur];
    goal == Words(all[0], all[1..], rest, q, bad)
  }

  /** After the character at hand nothing counts. */
  lemma ReadsEnd(goal: Words, env: Env, q: Quote, bad: bool, g: Found)
    requires Reads(goal, env, q, bad, g) && g.unread != [] && |g.words| < MAX_LINE_ARGS
    requires Next(g.unread, q, env) == End
    ensures Complete(goal, q, bad, g, "")
  {
    assert g.cur + "" == g.cur && g.words + [g.cur] + [] == g.words + [g.cur];
  }

  /** Nothing is left, or there are too many words. */
  lemma ReadsRest(goal: Words, env: Env, q: Quote, bad: bool, g: Found)
    requires Reads(goal, env, q, bad, g) && (g.unread == [] || |g.words| == MAX_LINE_ARGS)
    ensures Complete(goal, q, bad, g, g.unread)
  {
    assert g.cur + "" == g.cur && g.words + [g.cur] + [] == g.words + [g.cur];
  }

  /** Whether the first argument is empty is seen by its first character. */
  lemma HeadIs(buf: seq<char>, line: nat, done: string, args: seq<Ptr>, words: seq<string>, cur: string)
    requires line < |buf| && buf[..line] == done && Held(done, args, words, cur) && (words == [] ==> buf[line] == NUL)
    ensures args[0].off < |buf| && (buf[args[0].off] == NUL <==> UpToNul((words + [cur])[0]) == "")
  {
    var w, o := (words + [cur])[0], args[0].off;
    assert forall i :: 0 <= i < |done| ==> buf[i] == done[i];
    if w != "" { assert done[o..o + |w|][0] == w[0]; }
  }

  /** Of too many words the last is empty. */
  ghost predicate LastCut(ws: Words)
  {
    !ws.Unusable? && ws.rest != "" ==> |All(ws)| == MAX_LINE_ARGS + 1 && All(ws)[MAX_LINE_ARGS] == ""
  }

  lemma SplitLastCut(line: string, env: Env)
    ensures LastCut(Split(line, Plain, MAX_LINE_ARGS, env))
  {
    var ws := Split(line, Plain, MAX_LINE_ARGS, env);
    if !ws.Unusable? && ws.rest != "" { LastEmpty(line, Plain, MAX_LINE_ARGS, env); }
  }

  /** The end of the loop: the last word gets its final zero, or with too many words is cut to nothing. */
  method Finish(ghost goal: Words, p: Place, stopped: bool, ghost g: Found) returns (r: Outcome)
    requires Stands(p, g) && LastCut(goal) && Complete(goal, p.q, p.bad, g, if stopped then "" else g.unread)
    requires g.words == [] ==> stopped || g.unread == []
    modifies p.thisline
    ensures Tokenized(r, p.thisline, goal)
  {
    var blank, args, tooMany := EndWords(p, stopped, g);
    var c := Complaints(p.q == Double, p.q == Single, p.bad);
    AllOfWords(goal, g.words, g.cur);
    r := if blank then Blank(c) else Tokens(args, c, tooMany);
  }

  lemma AllOfWords(ws: Words, words: seq<string>, cur: string)
    requires !ws.Unusable? && ws.first == (words + [cur])[0] && ws.more == (words + [cur])[1..] && LastCut(ws)
    ensures All(ws) == words + [cur] && (ws.rest != "" ==> cur == "")
  {
    assert All(ws) == words + [cur];
    assert All(ws)[|words|] == cur;
  }

  /** The pointers name the words, each with its final zero. */
  ghost predicate NamedAll(args: seq<Ptr>, thisline: array<char>, words: seq<string>)
    reads thisline
  {
    && |args| == |words|
    && forall i :: 0 <= i < |args| ==> args[i].base == thisline && Names(args[i], thisline[..], words[i])
  }

  method EndWords(p: Place, stopped: bool, ghost g: Found) returns (blank: bool, args: seq<Ptr>, tooMany: bool)
    requires Stands(p, g) && (g.words == [] ==> stopped || g.unread == [])
    modifies p.thisline
    ensures blank <==> UpToNul((g.words + [g.cur])[0]) == ""
    ensures !blank ==>
      && tooMany == (!stopped && g.unread != [])
      && NamedAll(args, p.thisline, g.words + [if tooMany then "" else g.cur])
  {
    At(p.thisline[..], p.line, p.end, g.done, g.unread, 0);
    if stopped { EndWord(p.thisline, p.line, g.done); }
    HeadIs(p.thisline[..], p.line, g.done, p.args, g.words, g.cur);
    blank, args, tooMany := p.thisline[p.args[0].off] == NUL, p.args, p.thisline[p.line] != NUL;
    if blank { return; }
    if tooMany {
      args := CutLast(p, g);
    } else {
      AllNamed(p.thisline[..], p.line, g.done, p.args, g.words, g.cur);
    }
  }

  method EndWord(thisline: array<char>, line: nat, ghost done: string)
    requires line < thisline.Length && thisline[..line] == done
    modifies thisline
    ensures thisline[..line] == done && thisline[line] == NUL
  {
    thisline[line] := NUL;
  }

  /** The rest of the line is skipped, and the last pointer is set to its end. */
  method CutLast(p: Place, ghost g: Found) returns (args: seq<Ptr>)
    requires Stands(p, g)
    modifies p.thisline
    ensures NamedAll(args, p.thisline, g.words + [""])
  {
    var line := p.line;
    ghost var buf := p.thisline[..];
    while line < p.end && p.thisline[line] != '#' && p.thisline[line] != NEWLINE && p.thisline[line] != RETURN
      invariant p.line <= line <= p.end
    {
      line := line + 1;
    }
    p.thisline[line] := NUL;
    var arg := |p.args| - 1;
    args := p.args[arg := Ptr(p.thisline, line)];
    ghost var buf' := p.thisline[..];
    assert buf'[..p.line] == buf[..p.line] == g.done;
    forall i | 0 <= i < |g.words| ensures Names(args[i], buf', g.words[i]) {
      var o, w := p.args[i].off, g.words[i];
      SliceWithin(buf', p.line, o, o + |w|);
      assert buf'[o + |w|] == buf'[..p.line][o + |w|];
    }
    assert Names(args[arg], buf', "");
  }

  lemma ReadsFirst(env: Env, done: string, line: string)
    ensures Reads(Split(line, Plain, MAX_LINE_ARGS, env), env, Plain, false, Found(done, line, [], ""))
  {
    var r := Split(line, Plain, MAX_LINE_ARGS, env);
    if !r.Unusable? { assert "" + r.first == r.first && ([r.first] + r.more)[1..] == r.more; }
  }

  /** One turn, with what it means for the words of the line. */
  method Round(env: Env, p: Place, ghost goal: Words, ghost g: Found)
    returns (status: Status, p': Place, ghost g': Found)
    requires Stands(p, g) && Reads(goal, env, p.q, p.bad, g) && g.unread != [] && |g.words| < MAX_LINE_ARGS
    modifies p.thisline
    ensures p'.thisline == p.thisline || fresh(p'.thisline)
    ensures status == Failed ==> goal.Unusable?
    ensures status != Failed ==> Stands(p', g')
    ensures status == Going ==> Reads(goal, env, p'.q, p'.bad, g') && |g'.unread| < |g.unread|
    ensures status == Stopped ==> Complete(goal, p'.q, p'.bad, g', "") && g' == g
  {
    status, p', g' := Turn(env, p, g);
    if status == Failed { ReadsWrong(goal, env, p.q, p.bad, g); }
    if status == Going { ReadsOn(goal, env, p.q, p.bad, g, Next(g.unread, p.q, env), p'.q, p'.bad, g'); }
    if status == Stopped { ReadsEnd(goal, env, p.q, p.bad, g); }
  }

  /** The loop over the characters of the line. */
  method TurnAll(ghost goal: Words, env: Env, p0: Place, ghost g0: Found) returns (r: Outcome, buffer: array<char>)
    requires Stands(p0, g0) && Reads(goal, env, p0.q, p0.bad, g0) && LastCut(goal)
    modifies p0.thisline
    ensures if goal.Unusable? then r == Skipped else Tokenized(r, buffer, goal)
  {
    var p, status := p0, Going;
    ghost var g := g0;
    At(p.thisline[..], p.line, p.end, g.done, g.unread, 0);
    while p.thisline[p.line] != NUL && |p.args| <= MAX_LINE_ARGS && status == Going
      invariant p.thisline == p0.thisline || fresh(p.thisline)
      invariant Stands(p, g) && status != Failed
      invariant status == Going ==> Reads(goal, env, p.q, p.bad, g)
      invariant status == Stopped ==> Complete(goal, p.q, p.bad, g, "")
      invariant p.thisline[p.line] == if g.unread == [] then NUL else g.unread[0]
      decreases |g.unread|, if status == Going then 1 else 0
    {
      status, p, g := Round(env, p, goal, g);
      if status == Failed { return Skipped, p.thisline; }
      At(p.thisline[..], p.line, p.end, g.done, g.unread, 0);
    }
    At(p.thisline[..], p.line, p.end, g.done, g.unread, 0);
    if status == Going { ReadsRest(goal, env, p.q, p.bad, g); }
    buffer := p.thisline;
    r := Finish(goal, p, status == Stopped, g);
    TokenizedUsable(r, buffer, goal);
  }

  lemma TokenizedUsable(o: Outcome, buffer: array<char>, ws: Words)
    requires Tokenized(o, buffer, ws)
    ensures !ws.Unusable?
  {
  }

  /** The tokenizer of readcfgfile on a line in its buffer, whose text holds no zero: the tokens are just the
      words of the text after its leading spaces, wherever the buffer has moved to. */
  method Tokenize(thisline: array<char>, text: string, env: Env) returns (r: Outcome, buffer: array<char>)
    requires |text| < thisline.Length && View(thisline[..], 0, |text|, "", text)
    modifies thisline
    ensures var line := text[SpacesOf(text)..]; var ws := Split(line, Plain, MAX_LINE_ARGS, env);
      if line != "" && line[0] == '[' then r == ScopeMark
      else if ws.Unusable? then r == Skipped
      else
        && Tokenized(r, buffer, ws)
        && (r.Tokens? ==> forall i :: 0 <= i < |r.args| ==> Argument(r.args[i]) == UpToNul(All(ws)[i]))
  {
    var start := SkipSpaces(thisline, 0, |text|, "", text);
    ghost var done, line := text[..SpacesOf(text)], text[SpacesOf(text)..];
    assert "" + done == done;
    At(thisline[..], start, |text|, done, line, 0);
    if thisline[start] == '[' { return ScopeMark, thisline; }
    ReadsFirst(env, done, line);
    var p := Place(thisline, start, |text|, [Ptr(thisline, start)], Plain, false);
    SplitLastCut(line, env);
    r, buffer := TurnAll(Split(line, Plain, MAX_LINE_ARGS, env), env, p, Found(done, line, [], ""));
    if r.Tokens? { ArgumentsAre(r, buffer, line, env); }
  }
}
