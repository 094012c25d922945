/**
  The words of ACL conditions: how they are compiled, and what they mean.
 */
module AclWords {
  import opened Basics
  import opened AclConditions

  // ---- The words of a condition ----

  datatype Token = Bang | Or | Test(acl: Acl)

  /** The ACLs that words can name, and those that the words between braces can spell out. */
  datatype Names = Names(known: map<string, Acl>, anonymous: map<seq<string>, Acl>)

  function IsOr(word: string): bool
  {
    word in ["or", "Or", "oR", "OR", "||"]
  }

  /** How many words come before the closing brace; None if the words end before. */
  function Closing(args: seq<string>): (r: Option<nat>)
    ensures r.Some? ==>
      && r.value < |args| && args[r.value] == "}"
      && forall i :: 0 <= i < r.value ==> args[i] != "}" && args[i] != ""
  {
    if args == [] || args[0] == "" then None
    else if args[0] == "}" then Some(0)
    else
      var r := Closing(args[1..]);
      if r.None? then None else Some(r.value + 1)
  }

  ghost function Then(t: Token, rest: Option<seq<Token>>): Option<seq<Token>>
  {
    if rest.None? then None else Some([t] + rest.value)
  }

  /** What the words up to the first empty one stand for; None if they are not a condition. */
  ghost function Lex(args: seq<string>, sc: Names): Option<seq<Token>>
    decreases 2 * |args|
  {
    if args == [] || args[0] == "" then Some([]) else LexWord(args[0], args[1..], sc)
  }

  ghost function LexWord(word: string, rest: seq<string>, sc: Names): Option<seq<Token>>
    decreases 2 * |rest| + 1, |word|
  {
    if word == "" then Lex(rest, sc)
    else if word[0] == '!' then Then(Bang, LexWord(word[1..], rest, sc))
    else if IsOr(word) then Then(Or, Lex(rest, sc))
    else if word == "{" then
      var k := Closing(rest);
      if k.None? || rest[..k.value] !in sc.anonymous then None
      else Then(Test(sc.anonymous[rest[..k.value]]), Lex(rest[k.value + 1..], sc))
    else if word in sc.known then Then(Test(sc.known[word]), Lex(rest, sc))
    else None
  }

  /** An exclamation mark may stand alone. */
  lemma BangApart(word: string, rest: seq<string>, sc: Names)
    requires word != ""
    ensures Lex(["!" + word] + rest, sc) == Lex(["!", word] + rest, sc)
  {
    var joined, apart, tail := ["!" + word] + rest, ["!", word] + rest, [word] + rest;
    assert joined[1..] == rest && apart[1..] == tail && tail[1..] == rest;
    assert ("!" + word)[1..] == word && "!"[1..] == "";
    assert Lex(joined, sc) == LexWord("!" + word, rest, sc) == Then(Bang, LexWord(word, rest, sc));
    assert Lex(apart, sc) == LexWord("!", tail, sc) == Then(Bang, LexWord("", tail, sc));
    assert LexWord("", tail, sc) == Lex(tail, sc) == LexWord(word, rest, sc);
  }

  // ---- What the tokens spell out ----

  function FirstOr(ts: seq<Token>): (k: nat)
    ensures k <= |ts| && (k < |ts| ==> ts[k] == Or) && forall i :: 0 <= i < k ==> ts[i] != Or
  {
    if ts == [] || ts[0] == Or then 0 else 1 + FirstOr(ts[1..])
  }

  /** The tests between two "or", each negated by an odd number of marks since the last one. */
  ghost function Terms(ts: seq<Token>, neg: bool): seq<Term>
  {
    if ts == [] then []
    else match ts[0]
      case Bang => Terms(ts[1..], !neg)
      case Or => Terms(ts[1..], neg)
      case Test(acl) => [Term(acl, neg)] + Terms(ts[1..], false)
  }

  /** Nothing between two "or" counts for nothing. */
  ghost function Clause(terms: seq<Term>): Clauses
  {
    if terms == [] then [] else [terms]
  }

  ghost function Spelled(ts: seq<Token>): Clauses
    decreases |ts|
  {
    var k := FirstOr(ts);
    Clause(Terms(ts[..k], false)) + if k < |ts| then Spelled(ts[k + 1..]) else []
  }

  /** The validity of the tests between two "or" is what they have in common; that of nothing is ALL. */
  ghost function ValAll(ts: seq<Token>): (r: Bitmask)
    ensures r <= ALL
  {
    if ts == [] then ALL else ValAll(ts[1..]) * if ts[0].Test? then ts[0].acl.val else ALL
  }

  ghost function ValOf(ts: seq<Token>): Bitmask
    decreases |ts|
  {
    var k := FirstOr(ts);
    ValAll(ts[..k]) + if k < |ts| then ValOf(ts[k + 1..]) else {}
  }

  /** Where clauses can be evaluated: at the places that are valid for all tests of some clause. */
  ghost function CommonVal(terms: seq<Term>): (r: Bitmask)
    ensures r <= ALL
  {
    if terms == [] then ALL else CommonVal(terms[1..]) * terms[0].acl.val
  }

  ghost function MeantVal(c: Clauses): (r: Bitmask)
    ensures r <= ALL
  {
    if c == [] then {} else CommonVal(c[0]) + MeantVal(c[1..])
  }

  /** There is no test before, after or between some "or", or none at all. */
  ghost predicate SomeEmpty(ts: seq<Token>)
    decreases |ts|
  {
    var k := FirstOr(ts);
    Terms(ts[..k], false) == [] || (k < |ts| && SomeEmpty(ts[k + 1..]))
  }

  lemma {:induction false} ValAllIs(ts: seq<Token>, neg: bool)
    ensures ValAll(ts) == CommonVal(Terms(ts, neg))
  {
    if ts != [] {
      ValAllIs(ts[1..], if ts[0].Bang? then !neg else if ts[0].Or? then neg else false);
      if ts[0].Test? {
        var rest := Terms(ts[1..], false);
        assert ([Term(ts[0].acl, neg)] + rest)[1..] == rest;
      }
    }
  }

  lemma {:induction false} ValOfIs(ts: seq<Token>)
    ensures ValOf(ts) == MeantVal(Spelled(ts)) + if SomeEmpty(ts) then ALL else {}
    decreases |ts|
  {
    var k := FirstOr(ts);
    var here := Terms(ts[..k], false);
    ValAllIs(ts[..k], false);
    if k < |ts| {
      var tail := ts[k + 1..];
      ValOfIs(tail);
      ClauseVal(here, Spelled(tail));
      Unions(CommonVal(here), here == [], MeantVal(Spelled(tail)), SomeEmpty(tail));
    } else {
      ClauseVal(here, []);
      assert Clause(here) + [] == Clause(here);
    }
  }

  lemma Unions(v: Bitmask, empty: bool, m: Bitmask, more: bool)
    requires empty ==> v == ALL
    ensures v + (m + if more then ALL else {}) == m + (if empty then {} else v) + if empty || more then ALL else {}
  {
  }

  lemma ClauseVal(terms: seq<Term>, rest: Clauses)
    ensures MeantVal(Clause(terms) + rest) == MeantVal(rest) + if terms == [] then {} else CommonVal(terms)
    ensures terms == [] ==> CommonVal(terms) == ALL
  {
    if terms == [] {
      assert Clause(terms) + rest == rest;
    } else {
      assert (Clause(terms) + rest)[1..] == rest;
    }
  }

  /** The validity mask of a condition is that of its clauses if and only if no clause is empty, or it is ALL anyway. */
  lemma ValIff(ts: seq<Token>)
    ensures ValOf(ts) == MeantVal(Spelled(ts)) <==> !SomeEmpty(ts) || MeantVal(Spelled(ts)) == ALL
  {
    ValOfIs(ts);
  }

  /** After a final "or" the mask is ALL, whatever the test before it allows. */
  lemma TrailingOr(a: Acl)
    ensures var ts := [Test(a), Or];
      && Spelled(ts) == [[Term(a, false)]] && MeantVal(Spelled(ts)) == ALL * a.val
      && ValOf(ts) == ALL
  {
    var ts := [Test(a), Or];
    assert ts[1..] == [Or] && ts[..1] == [Test(a)] && ts[2..] == [] && [Test(a)][1..] == [];
    assert FirstOr(ts) == 1 + FirstOr([Or]) && Spelled([]) == [];
    assert Terms([Test(a)], false) == [Term(a, false)];
    assert [Term(a, false)][1..] == [] && [[Term(a, false)]][1..] == [];
    assert SomeEmpty([]) && SomeEmpty(ts);
    ClauseVal([Term(a, false)], []);
    assert CommonVal([Term(a, false)]) == CommonVal([]) * a.val;
    ValOfIs(ts);
  }

  ghost function UseOf(ts: seq<Token>): Bitmask
  {
    if ts == [] then {} else UseOf(ts[1..]) + if ts[0].Test? then ts[0].acl.use else {}
  }

  /** The words that write out clauses. */
  ghost function Render(terms: seq<Term>): seq<Token>
  {
    if terms == [] then []
    else (if terms[0].neg then [Bang] else []) + [Test(terms[0].acl)] + Render(terms[1..])
  }

  ghost function RenderAll(c: Clauses): seq<Token>
  {
    if c == [] then [] else if |c| == 1 then Render(c[0]) else Render(c[0]) + ([Or] + RenderAll(c[1..]))
  }

  /** Clauses that are written out and read again are the same. */
  lemma {:induction false} RenderSpelled(c: Clauses)
    requires forall i :: 0 <= i < |c| ==> c[i] != []
    ensures Spelled(RenderAll(c)) == c
  {
    if c != [] {
      RenderTerms(c[0]);
      if |c| == 1 {
        SpelledLast(Render(c[0]));
      } else {
        RenderSpelled(c[1..]);
        SpelledMore(Render(c[0]), RenderAll(c[1..]));
      }
    }
  }

  lemma SpelledLast(a: seq<Token>)
    requires forall t :: t in a ==> t != Or
    ensures Spelled(a) == Clause(Terms(a, false))
  {
    OrAfter(a, []);
    assert a + [] == a && a[..|a|] == a;
  }

  lemma SpelledMore(a: seq<Token>, ts: seq<Token>)
    requires forall t :: t in a ==> t != Or
    ensures Spelled(a + ([Or] + ts)) == Clause(Terms(a, false)) + Spelled(ts)
  {
    var all := a + ([Or] + ts);
    OrAfter(a, [Or] + ts);
    assert all[..|a|] == a && all[|a| + 1..] == ts;
  }

  lemma {:induction false} RenderTerms(terms: seq<Term>)
    ensures Terms(Render(terms), false) == terms && forall t :: t in Render(terms) ==> t != Or
  {
    if terms != [] {
      RenderTerms(terms[1..]);
      var r, rest := Render(terms), Render(terms[1..]);
      if terms[0].neg {
        assert r[1..] == [Test(terms[0].acl)] + rest && r[1..][1..] == rest;
      } else {
        assert r[1..] == rest;
      }
    }
  }

  lemma {:induction false} OrAfter(a: seq<Token>, b: seq<Token>)
    requires (forall t :: t in a ==> t != Or) && (b == [] || b[0] == Or)
    ensures FirstOr(a + b) == |a|
  {
    if a == [] {
      assert a + b == b;
    } else {
      assert a[0] in a && (a + b)[0] == a[0] && (a + b)[1..] == a[1..] + b;
      assert forall t :: t in a[1..] ==> t in a;
      OrAfter(a[1..], b);
    }
  }

  // ---- Conditions written out in words ----

  /** What a test names: an ACL, or the words of one between braces. */
  datatype Named = Known(name: string) | Braced(words: seq<string>)

  /** A test as one writes it: words of exclamation marks alone, and more marks in front of what it names. */
  datatype Said = Said(alone: seq<string>, marks: string, test: Named)

  /** The tests of a clause, marks that no test follows, and the word for "or" after it. */
  datatype SaidClause = SaidClause(terms: seq<Said>, trail: seq<string>, or: string)

  ghost predicate IsMarks(word: string)
  {
    forall i :: 0 <= i < |word| ==> word[i] == '!'
  }

  ghost predicate AllMarks(words: seq<string>)
  {
    forall i :: 0 <= i < |words| ==> words[i] != "" && IsMarks(words[i])
  }

  ghost function Count(words: seq<string>): nat
  {
    if words == [] then 0 else |words[0]| + Count(words[1..])
  }

  ghost predicate CanName(t: Named, sc: Names)
  {
    match t
    case Known(name) => name in sc.known && name != "" && name[0] != '!' && name != "{" && !IsOr(name)
    case Braced(words) => words in sc.anonymous && forall w :: w in words ==> w != "" && w != "}"
  }

  ghost function AclOf(t: Named, sc: Names): Acl
    requires CanName(t, sc)
  {
    match t
    case Known(name) => sc.known[name]
    case Braced(words) => sc.anonymous[words]
  }

  ghost predicate CanSay(t: Said, sc: Names)
  {
    AllMarks(t.alone) && IsMarks(t.marks) && CanName(t.test, sc)
  }

  /** An odd number of marks negates a test. */
  ghost function TermOf(t: Said, sc: Names): Term
    requires CanSay(t, sc)
  {
    Term(AclOf(t.test, sc), (Count(t.alone) + |t.marks|) % 2 == 1)
  }

  ghost function First(t: Named): string
  {
    if t.Known? then t.name else "{"
  }

  ghost function Others(t: Named): seq<string>
  {
    if t.Known? then [] else t.words + ["}"]
  }

  ghost function Say(t: Said): seq<string>
  {
    t.alone + ([t.marks + First(t.test)] + Others(t.test))
  }

  ghost predicate CanSayTerms(terms: seq<Said>, sc: Names)
  {
    forall i :: 0 <= i < |terms| ==> CanSay(terms[i], sc)
  }

  ghost function SayTerms(terms: seq<Said>): seq<string>
  {
    if terms == [] then [] else Say(terms[0]) + SayTerms(terms[1..])
  }

  ghost function TermsOf(terms: seq<Said>, sc: Names): (r: seq<Term>)
    requires CanSayTerms(terms, sc)
    ensures |r| == |terms| && forall i :: 0 <= i < |r| ==> r[i] == TermOf(terms[i], sc)
  {
    if terms == [] then [] else [TermOf(terms[0], sc)] + TermsOf(terms[1..], sc)
  }

  ghost predicate CanSayAll(c: seq<SaidClause>, sc: Names)
  {
    forall i :: 0 <= i < |c| ==> CanSayTerms(c[i].terms, sc) && AllMarks(c[i].trail) && IsOr(c[i].or)
  }

  ghost function SayClause(c: SaidClause): seq<string>
  {
    SayTerms(c.terms) + c.trail
  }

  ghost function SayAll(c: seq<SaidClause>): seq<string>
  {
    if c == [] then [] else if |c| == 1 then SayClause(c[0]) else SayClause(c[0]) + ([c[0].or] + SayAll(c[1..]))
  }

  /** The clauses without those that have no test. */
  ghost function ClausesOf(c: seq<SaidClause>, sc: Names): Clauses
    requires CanSayAll(c, sc)
  {
    if c == [] then [] else Clause(TermsOf(c[0].terms, sc)) + ClausesOf(c[1..], sc)
  }

  /** The words for "or": in letters of either case, or two bars. */
  lemma OrWords(word: string)
    ensures IsOr(word) <==>
      word == "||" || (|word| == 2 && (word[0] == 'o' || word[0] == 'O') && (word[1] == 'r' || word[1] == 'R'))
  {
    if |word| == 2 { assert word == [word[0], word[1]]; }
  }

  // ---- The tokens of such words ----

  ghost function Bangs(n: nat): seq<Token>
  {
    if n == 0 then [] else [Bang] + Bangs(n - 1)
  }

  ghost function TokensOf(t: Said, sc: Names): seq<Token>
    requires CanSay(t, sc)
  {
    Bangs(Count(t.alone) + |t.marks|) + [Test(AclOf(t.test, sc))]
  }

  ghost function TermsTokens(terms: seq<Said>, sc: Names): seq<Token>
    requires CanSayTerms(terms, sc)
  {
    if terms == [] then [] else TokensOf(terms[0], sc) + TermsTokens(terms[1..], sc)
  }

  ghost function ClauseTokens(c: SaidClause, sc: Names): seq<Token>
    requires CanSayTerms(c.terms, sc)
  {
    TermsTokens(c.terms, sc) + Bangs(Count(c.trail))
  }

  ghost function AllTokens(c: seq<SaidClause>, sc: Names): seq<Token>
    requires CanSayAll(c, sc)
  {
    if c == [] then [] else if |c| == 1 then ClauseTokens(c[0], sc)
    else ClauseTokens(c[0], sc) + ([Or] + AllTokens(c[1..], sc))
  }

  ghost function Before(ts: seq<Token>, rest: Option<seq<Token>>): Option<seq<Token>>
  {
    if rest.None? then None else Some(ts + rest.value)
  }

  /** The words read as these tokens, whatever follows. */
  ghost predicate Reads(words: seq<string>, ts: seq<Token>, rest: seq<string>, sc: Names)
  {
    Lex(words + rest, sc) == Before(ts, Lex(rest, sc))
  }

  lemma ReadsOnward(a: seq<string>, ts: seq<Token>, b: seq<string>, us: seq<Token>, rest: seq<string>, sc: Names)
    requires Reads(a, ts, b + rest, sc) && Reads(b, us, rest, sc)
    ensures Reads(a + b, ts + us, rest, sc)
  {
    assert a + b + rest == a + (b + rest);
    if Lex(rest, sc).Some? { assert ts + (us + Lex(rest, sc).value) == ts + us + Lex(rest, sc).value; }
  }

  lemma ReadsNothing(rest: seq<string>, sc: Names)
    ensures Reads([], [], rest, sc)
  {
    assert [] + rest == rest;
    if Lex(rest, sc).Some? { assert [] + Lex(rest, sc).value == Lex(rest, sc).value; }
  }

  lemma {:induction false} BangsAdd(a: nat, b: nat)
    ensures Bangs(a) + Bangs(b) == Bangs(a + b)
  {
    if a > 0 { BangsAdd(a - 1, b); }
  }

  lemma {:induction false} MarksRead(marks: string, word: string, rest: seq<string>, sc: Names)
    requires IsMarks(marks)
    ensures LexWord(marks + word, rest, sc) == Before(Bangs(|marks|), LexWord(word, rest, sc))
  {
    var r := LexWord(word, rest, sc);
    if marks == [] {
      assert marks + word == word;
      if r.Some? { assert [] + r.value == r.value; }
    } else {
      MarksRead(marks[1..], word, rest, sc);
      assert (marks + word)[1..] == marks[1..] + word;
      if r.Some? { assert [Bang] + (Bangs(|marks| - 1) + r.value) == Bangs(|marks|) + r.value; }
    }
  }

  /** Words of marks alone. */
  lemma {:induction false} AloneRead(alone: seq<string>, rest: seq<string>, sc: Names)
    requires AllMarks(alone)
    ensures Reads(alone, Bangs(Count(alone)), rest, sc)
  {
    if alone == [] {
      ReadsNothing(rest, sc);
    } else {
      var word, more := alone[0], alone[1..] + rest;
      AloneRead(alone[1..], rest, sc);
      MarksRead(word, "", more, sc);
      assert word + "" == word && ([word] + more)[1..] == more;
      assert Reads([word], Bangs(|word|), more, sc);
      ReadsOnward([word], Bangs(|word|), alone[1..], Bangs(Count(alone[1..])), rest, sc);
      BangsAdd(|word|, Count(alone[1..]));
      assert [word] + alone[1..] == alone;
    }
  }

  lemma TestReads(t: Named, rest: seq<string>, sc: Names)
    requires CanName(t, sc)
    ensures LexWord(First(t), Others(t) + rest, sc) == Then(Test(AclOf(t, sc)), Lex(rest, sc))
  {
    if t.Braced? {
      var inner := t.words;
      var all := inner + ["}"] + rest;
      assert all[|inner|] == "}" && all[..|inner|] == inner && all[|inner| + 1..] == rest;
      assert forall i :: 0 <= i < |inner| ==> all[i] in inner;
      ClosingIs(all, |inner|);
    } else {
      assert [] + rest == rest;
    }
  }

  lemma BeforeThen(ts: seq<Token>, t: Token, r: Option<seq<Token>>)
    ensures Before(ts, Then(t, r)) == Before(ts + [t], r)
  {
    if r.Some? { assert ts + ([t] + r.value) == ts + [t] + r.value; }
  }

  lemma LexFirst(word: string, words: seq<string>, all: seq<string>, sc: Names)
    requires word != "" && all == [word] + words
    ensures Lex(all, sc) == LexWord(word, words, sc)
  {
    assert all[1..] == words;
  }

  lemma MarkedReads(marks: string, name: string, others: seq<string>, acl: Acl, rest: seq<string>, sc: Names,
      whole: string)
    requires IsMarks(marks) && name != "" && whole == marks + name
    requires LexWord(name, others + rest, sc) == Then(Test(acl), Lex(rest, sc))
    ensures Reads([whole] + others, Bangs(|marks|) + [Test(acl)], rest, sc)
  {
    MarksRead(marks, name, others + rest, sc);
    BeforeThen(Bangs(|marks|), Test(acl), Lex(rest, sc));
    LexFirst(whole, others + rest, [whole] + others + rest, sc);
  }

  lemma SayReads(t: Said, rest: seq<string>, sc: Names)
    requires CanSay(t, sc)
    ensures Reads(Say(t), TokensOf(t, sc), rest, sc)
  {
    var words, test := [t.marks + First(t.test)] + Others(t.test), [Test(AclOf(t.test, sc))];
    TestReads(t.test, rest, sc);
    MarkedReads(t.marks, First(t.test), Others(t.test), AclOf(t.test, sc), rest, sc, t.marks + First(t.test));
    AloneRead(t.alone, words + rest, sc);
    ReadsOnward(t.alone, Bangs(Count(t.alone)), words, Bangs(|t.marks|) + test, rest, sc);
    BangsAdd(Count(t.alone), |t.marks|);
    assert Bangs(Count(t.alone)) + (Bangs(|t.marks|) + test) == Bangs(Count(t.alone)) + Bangs(|t.marks|) + test;
  }

  lemma {:induction false} TermsRead(terms: seq<Said>, rest: seq<string>, sc: Names)
    requires CanSayTerms(terms, sc)
    ensures Reads(SayTerms(terms), TermsTokens(terms, sc), rest, sc)
  {
    if terms == [] {
      ReadsNothing(rest, sc);
    } else {
      TermsRead(terms[1..], rest, sc);
      SayReads(terms[0], SayTerms(terms[1..]) + rest, sc);
      ReadsOnward(Say(terms[0]), TokensOf(terms[0], sc), SayTerms(terms[1..]), TermsTokens(terms[1..], sc), rest, sc);
    }
  }

  lemma ClauseReads(c: SaidClause, rest: seq<string>, sc: Names)
    requires CanSayTerms(c.terms, sc) && AllMarks(c.trail)
    ensures Reads(SayClause(c), ClauseTokens(c, sc), rest, sc)
  {
    AloneRead(c.trail, rest, sc);
    TermsRead(c.terms, c.trail + rest, sc);
    ReadsOnward(SayTerms(c.terms), TermsTokens(c.terms, sc), c.trail, Bangs(Count(c.trail)), rest, sc);
  }

  lemma OrReads(or: string, words: seq<string>, ts: seq<Token>, rest: seq<string>, sc: Names)
    requires IsOr(or) && Reads(words, ts, rest, sc)
    ensures Reads([or] + words, [Or] + ts, rest, sc)
  {
    assert ([or] + (words + rest))[1..] == words + rest;
    assert Reads([or], [Or], words + rest, sc);
    ReadsOnward([or], [Or], words, ts, rest, sc);
  }

  lemma {:induction false} AllRead(c: seq<SaidClause>, rest: seq<string>, sc: Names)
    requires CanSayAll(c, sc)
    ensures Reads(SayAll(c), AllTokens(c, sc), rest, sc)
  {
    if c == [] {
      ReadsNothing(rest, sc);
    } else if |c| == 1 {
      ClauseReads(c[0], rest, sc);
    } else {
      AllRead(c[1..], rest, sc);
      OrReads(c[0].or, SayAll(c[1..]), AllTokens(c[1..], sc), rest, sc);
      ClauseReads(c[0], [c[0].or] + SayAll(c[1..]) + rest, sc);
      ReadsOnward(SayClause(c[0]), ClauseTokens(c[0], sc), [c[0].or] + SayAll(c[1..]),
        [Or] + AllTokens(c[1..], sc), rest, sc);
    }
  }

  // ---- What these tokens spell ----

  lemma {:induction false} BangsSpell(n: nat, neg: bool, ts: seq<Token>)
    ensures Terms(Bangs(n) + ts, neg) == Terms(ts, if n % 2 == 0 then neg else !neg)
    ensures forall t :: t in Bangs(n) ==> t != Or
  {
    if n == 0 {
      assert [] + ts == ts;
    } else {
      BangsSpell(n - 1, !neg, ts);
      assert (Bangs(n) + ts)[1..] == Bangs(n - 1) + ts;
    }
  }

  /** Marks, a test and what follows. */
  lemma TestSpells(n: nat, acl: Acl, more: seq<Token>, ts: seq<Token>)
    requires ts == Bangs(n) + ([Test(acl)] + more)
    ensures Terms(ts, false) == [Term(acl, n % 2 == 1)] + Terms(more, false)
    ensures (forall t :: t in more ==> t != Or) ==> forall t :: t in ts ==> t != Or
  {
    BangsSpell(n, false, [Test(acl)] + more);
    assert ([Test(acl)] + more)[1..] == more;
  }

  lemma {:induction false} TermsSpell(terms: seq<Said>, tail: nat, sc: Names)
    requires CanSayTerms(terms, sc)
    ensures Terms(TermsTokens(terms, sc) + Bangs(tail), false) == TermsOf(terms, sc)
    ensures forall t :: t in TermsTokens(terms, sc) + Bangs(tail) ==> t != Or
  {
    if terms == [] {
      BangsSpell(tail, false, []);
      assert Bangs(tail) + [] == Bangs(tail) && [] + Bangs(tail) == Bangs(tail);
    } else {
      var acl, n := AclOf(terms[0].test, sc), Count(terms[0].alone) + |terms[0].marks|;
      var more := TermsTokens(terms[1..], sc);
      TermsSpell(terms[1..], tail, sc);
      assert Bangs(n) + [Test(acl)] + more + Bangs(tail) == Bangs(n) + ([Test(acl)] + (more + Bangs(tail)));
      TestSpells(n, acl, more + Bangs(tail), TermsTokens(terms, sc) + Bangs(tail));
    }
  }

  lemma SpellLast(ts: seq<Token>, terms: seq<Term>)
    requires Terms(ts, false) == terms && forall t :: t in ts ==> t != Or
    ensures Spelled(ts) == Clause(terms) + []
  {
    SpelledLast(ts);
  }

  lemma SpellMore(ts: seq<Token>, terms: seq<Term>, us: seq<Token>, more: Clauses)
    requires Terms(ts, false) == terms && (forall t :: t in ts ==> t != Or) && Spelled(us) == more
    ensures Spelled(ts + ([Or] + us)) == Clause(terms) + more
  {
    SpelledMore(ts, us);
  }

  lemma {:induction false} AllSpell(c: seq<SaidClause>, sc: Names)
    requires CanSayAll(c, sc)
    ensures Spelled(AllTokens(c, sc)) == ClausesOf(c, sc)
  {
    if c != [] {
      var ts, terms := ClauseTokens(c[0], sc), TermsOf(c[0].terms, sc);
      TermsSpell(c[0].terms, Count(c[0].trail), sc);
      if |c| == 1 {
        SpellLast(ts, terms);
      } else {
        AllSpell(c[1..], sc);
        SpellMore(ts, terms, AllTokens(c[1..], sc), ClausesOf(c[1..], sc));
      }
    }
  }

  /** Clauses written out in words are read as just these clauses, up to the first empty word: an odd number of marks
      before a test negates it, "or" may be written in any way, and clauses without a test do not count. */
  lemma SaidIsSpelled(c: seq<SaidClause>, rest: seq<string>, sc: Names)
    requires CanSayAll(c, sc) && (rest == [] || rest[0] == "")
    ensures var r := Lex(SayAll(c) + rest, sc); r.Some? && Spelled(r.value) == ClausesOf(c, sc)
  {
    AllRead(c, rest, sc);
    AllSpell(c, sc);
    assert AllTokens(c, sc) + [] == AllTokens(c, sc);
  }

  /** The word names no ACL, nor do the words after it if it is an opening brace. */
  ghost predicate NamesNone(word: string, rest: seq<string>, sc: Names)
  {
    && word != "" && word[0] != '!' && !IsOr(word)
    && if word != "{" then word !in sc.known
       else forall k :: 0 <= k < |rest| && rest[k] == "}" && "}" !in rest[..k] && "" !in rest[..k] ==>
         rest[..k] !in sc.anonymous
  }

  /** With such a word, marked or not, the words are no condition. */
  lemma UnknownFails(c: seq<SaidClause>, marks: string, word: string, rest: seq<string>, sc: Names)
    requires CanSayAll(c, sc) && IsMarks(marks) && NamesNone(word, rest, sc)
    ensures Lex(SayAll(c) + ([marks + word] + rest), sc).None?
  {
    AllRead(c, [marks + word] + rest, sc);
    MarksRead(marks, word, rest, sc);
    assert ([marks + word] + rest)[1..] == rest;
    if word == "{" && Closing(rest).Some? {
      var k := Closing(rest).value;
      assert rest[k] == "}" && forall w :: w in rest[..k] ==> w != "}" && w != "";
    }
  }

  /** What the tests of clauses use. */
  ghost function TermsUse(terms: seq<Term>): Bitmask
  {
    if terms == [] then {} else terms[0].acl.use + TermsUse(terms[1..])
  }

  ghost function MeantUse(c: Clauses): Bitmask
  {
    if c == [] then {} else TermsUse(c[0]) + MeantUse(c[1..])
  }

  lemma {:induction false} UseAppend(a: seq<Token>, b: seq<Token>)
    ensures UseOf(a + b) == UseOf(a) + UseOf(b)
  {
    if a == [] {
      assert a + b == b;
    } else {
      UseAppend(a[1..], b);
      assert (a + b)[1..] == a[1..] + b;
    }
  }

  lemma {:induction false} TermsUseIs(ts: seq<Token>, neg: bool)
    ensures TermsUse(Terms(ts, neg)) == UseOf(ts)
  {
    if ts != [] {
      TermsUseIs(ts[1..], if ts[0].Bang? then !neg else if ts[0].Or? then neg else false);
      if ts[0].Test? {
        var rest := Terms(ts[1..], false);
        assert ([Term(ts[0].acl, neg)] + rest)[1..] == rest;
      }
    }
  }

  /** The usage mask of the words is the union of what the tests of their clauses use. */
  lemma {:induction false} UseIs(ts: seq<Token>)
    ensures UseOf(ts) == MeantUse(Spelled(ts))
    decreases |ts|
  {
    var k := FirstOr(ts);
    TermsUseIs(ts[..k], false);
    ClauseUse(Terms(ts[..k], false), if k < |ts| then Spelled(ts[k + 1..]) else []);
    UseSplit(ts, k);
    if k < |ts| { UseIs(ts[k + 1..]); }
  }

  lemma UseSplit(ts: seq<Token>, k: nat)
    requires k <= |ts| && (k < |ts| ==> ts[k] == Or)
    ensures UseOf(ts) == UseOf(ts[..k]) + if k < |ts| then UseOf(ts[k + 1..]) else {}
  {
    if k < |ts| {
      assert ts == ts[..k] + [ts[k]] + ts[k + 1..];
      UseOr(ts, ts[..k], ts[k + 1..]);
    } else {
      assert ts[..k] == ts;
    }
  }

  lemma UseOr(ts: seq<Token>, a: seq<Token>, b: seq<Token>)
    requires ts == a + [Or] + b
    ensures UseOf(ts) == UseOf(a) + UseOf(b)
  {
    assert ts == a + ([Or] + b) && ([Or] + b)[1..] == b;
    UseAppend(a, [Or] + b);
  }

  lemma ClauseUse(terms: seq<Term>, rest: Clauses)
    ensures MeantUse(Clause(terms) + rest) == TermsUse(terms) + MeantUse(rest)
  {
    if terms != [] { assert (Clause(terms) + rest)[1..] == rest; } else { assert Clause(terms) + rest == rest; }
  }

  // ---- The parser ----

  /** What the rest of the tokens makes of a clause begun, the next test being negated or not. */
  ghost function SpelledFrom(cur: seq<Term>, neg: bool, ts: seq<Token>): Clauses
  {
    var k := FirstOr(ts);
    Clause(cur + Terms(ts[..k], neg)) + if k < |ts| then Spelled(ts[k + 1..]) else []
  }

  ghost function ValFrom(val: Bitmask, suite_val: Bitmask, ts: seq<Token>): Bitmask
  {
    var k := FirstOr(ts);
    val + suite_val * ValAll(ts[..k]) + if k < |ts| then ValOf(ts[k + 1..]) else {}
  }

  lemma TakeCons(t: Token, ts: seq<Token>, k: nat)
    requires k <= |ts|
    ensures ([t] + ts)[..k + 1] == [t] + ts[..k] && ([t] + ts[..k])[1..] == ts[..k]
  {
  }

  lemma DropCons(t: Token, ts: seq<Token>, k: nat)
    requires k <= |ts|
    ensures ([t] + ts)[k + 1..] == ts[k..]
  {
  }

  lemma FirstOrStep(t: Token, ts: seq<Token>)
    requires t != Or
    ensures var all, k := [t] + ts, FirstOr(ts);
      && FirstOr(all) == k + 1 && all[..k + 1] == [t] + ts[..k] && ([t] + ts[..k])[1..] == ts[..k]
        && (k < |ts| ==> all[k + 2..] == ts[k + 1..])
  {
    var all, k := [t] + ts, FirstOr(ts);
    assert all[1..] == ts;
    assert FirstOr(all) == 1 + k;
    TakeCons(t, ts, k);
    if k < |ts| { DropCons(t, ts, k + 1); }
  }

  lemma SpelledBang(cur: seq<Term>, neg: bool, ts: seq<Token>)
    ensures SpelledFrom(cur, neg, [Bang] + ts) == SpelledFrom(cur, !neg, ts)
  {
    FirstOrStep(Bang, ts);
  }

  lemma SpelledOr(cur: seq<Term>, neg: bool, ts: seq<Token>)
    ensures SpelledFrom(cur, neg, [Or] + ts) == Clause(cur) + SpelledFrom([], false, ts)
  {
    var all := [Or] + ts;
    assert all[1..] == ts && all[..0] == [] && cur + [] == cur;
    SpelledStart(ts);
  }

  lemma SpelledTest(cur: seq<Term>, neg: bool, acl: Acl, ts: seq<Token>)
    ensures SpelledFrom(cur, neg, [Test(acl)] + ts) == SpelledFrom(cur + [Term(acl, neg)], false, ts)
  {
    FirstOrStep(Test(acl), ts);
    var more := Terms(ts[..FirstOr(ts)], false);
    assert cur + ([Term(acl, neg)] + more) == cur + [Term(acl, neg)] + more;
  }

  lemma SpelledStart(ts: seq<Token>)
    ensures SpelledFrom([], false, ts) == Spelled(ts)
  {
    var terms := Terms(ts[..FirstOr(ts)], false);
    assert [] + terms == terms;
  }

  lemma ValStep(val: Bitmask, suite_val: Bitmask, t: Token, ts: seq<Token>)
    requires suite_val <= ALL
    ensures t.Bang? ==> ValFrom(val, suite_val, [t] + ts) == ValFrom(val, suite_val, ts)
    ensures t.Or? ==> ValFrom(val, suite_val, [t] + ts) == ValFrom(val + suite_val, ALL, ts)
    ensures t.Test? ==> ValFrom(val, suite_val, [t] + ts) == ValFrom(val, suite_val * t.acl.val, ts)
  {
    if t.Or? { ValOr(val, suite_val, ts); } else { ValMore(val, suite_val, t, ts); }
  }

  lemma ValOr(val: Bitmask, suite_val: Bitmask, ts: seq<Token>)
    requires suite_val <= ALL
    ensures ValFrom(val, suite_val, [Or] + ts) == ValFrom(val + suite_val, ALL, ts)
  {
    var all, here := [Or] + ts, ValAll(ts[..FirstOr(ts)]);
    assert all[1..] == ts && all[..0] == [] && FirstOr(all) == 0;
    assert suite_val * ALL == suite_val && ALL * here == here;
  }

  lemma ValMore(val: Bitmask, suite_val: Bitmask, t: Token, ts: seq<Token>)
    requires suite_val <= ALL && t != Or
    ensures ValFrom(val, suite_val, [t] + ts) == ValFrom(val, if t.Test? then suite_val * t.acl.val else suite_val, ts)
  {
    var all, k, v := [t] + ts, FirstOr(ts), if t.Test? then t.acl.val else ALL;
    FirstOrStep(t, ts);
    assert all[..k + 1][0] == t && ValAll(all[..k + 1]) == ValAll(ts[..k]) * v;
    Intersections(suite_val, ValAll(ts[..k]), v);
  }

  lemma Intersections(a: Bitmask, b: Bitmask, v: Bitmask)
    requires a <= ALL
    ensures a * (b * v) == (a * v) * b && (v == ALL ==> a * v == a)
  {
  }

  lemma ValStart(ts: seq<Token>)
    ensures ValFrom({}, ALL, ts) == ValOf(ts)
  {
    assert ALL * ValAll(ts[..FirstOr(ts)]) == ValAll(ts[..FirstOr(ts)]);
  }

  /** The parser has made done and cur of the words before, rest being what is left. */
  ghost predicate Parsing(all: Option<seq<Token>>, rest: Option<seq<Token>>, done: Clauses, cur: seq<Term>, neg: bool,
                          use: Bitmask, val: Bitmask, suite_val: Bitmask)
  {
    && suite_val <= ALL && (rest.None? <==> all.None?)
    && (rest.Some? ==>
          && Spelled(all.value) == done + SpelledFrom(cur, neg, rest.value)
          && ValOf(all.value) == ValFrom(val, suite_val, rest.value)
          && UseOf(all.value) == use + UseOf(rest.value))
  }

  lemma UseStep(use: Bitmask, t: Token, ts: seq<Token>)
    ensures use + UseOf([t] + ts) == (if t.Test? then use + t.acl.use else use) + UseOf(ts)
  {
    assert ([t] + ts)[1..] == ts;
  }

  lemma ParsingBang(all: Option<seq<Token>>, rest: Option<seq<Token>>, done: Clauses, cur: seq<Term>, neg: bool,
                    use: Bitmask, val: Bitmask, suite_val: Bitmask)
    requires Parsing(all, Then(Bang, rest), done, cur, neg, use, val, suite_val)
    ensures Parsing(all, rest, done, cur, !neg, use, val, suite_val)
  {
    if rest.Some? {
      SpelledBang(cur, neg, rest.value);
      ValStep(val, suite_val, Bang, rest.value);
      UseStep(use, Bang, rest.value);
    }
  }

  lemma ParsingOr(all: Option<seq<Token>>, rest: Option<seq<Token>>, done: Clauses, cur: seq<Term>, neg: bool,
                  use: Bitmask, val: Bitmask, suite_val: Bitmask)
    requires Parsing(all, Then(Or, rest), done, cur, neg, use, val, suite_val)
    ensures Parsing(all, rest, done + Clause(cur), [], false, use, val + suite_val, ALL)
  {
    if rest.Some? {
      SpelledOr(cur, neg, rest.value);
      ValStep(val, suite_val, Or, rest.value);
      UseStep(use, Or, rest.value);
      assert done + (Clause(cur) + SpelledFrom([], false, rest.value)) ==
        done + Clause(cur) + SpelledFrom([], false, rest.value);
    }
  }

  lemma ParsingTest(all: Option<seq<Token>>, acl: Acl, rest: Option<seq<Token>>, done: Clauses, cur: seq<Term>,
      neg: bool, use: Bitmask, val: Bitmask, suite_val: Bitmask)
    requires Parsing(all, Then(Test(acl), rest), done, cur, neg, use, val, suite_val)
    ensures Parsing(all, rest, done, cur + [Term(acl, neg)], false, use + acl.use, val, suite_val * acl.val)
  {
    if rest.Some? {
      SpelledTest(cur, neg, acl, rest.value);
      ValStep(val, suite_val, Test(acl), rest.value);
      UseStep(use, Test(acl), rest.value);
    }
  }

  lemma ParsingEnds(all: Option<seq<Token>>, done: Clauses, cur: seq<Term>, neg: bool, use: Bitmask, val: Bitmask,
      suite_val: Bitmask)
    requires Parsing(all, Some([]), done, cur, neg, use, val, suite_val)
    ensures all.Some? && Spelled(all.value) == done + Clause(cur) && UseOf(all.value) == use
      && ValOf(all.value) == val + suite_val
  {
    assert cur + [] == cur && suite_val * ALL == suite_val;
    var ts: seq<Token> := [];
    assert ts[..0] == ts;
  }

  /** The list of suites, the last one being still open if cur is not empty. */
  ghost predicate Building(c: Cond, cur_suite: Suite?, done: Clauses, cur: seq<Term>)
    reads c, c.suites
  {
    && Shape(c.suites) == done + Clause(cur)
    && (forall i, j :: 0 <= i < j < |c.suites| ==> c.suites[i] != c.suites[j])
    && if cur_suite == null then cur == [] else cur != [] && |c.suites| > 0 && cur_suite == c.suites[|c.suites| - 1]
  }

  lemma BuildingIs(c: Cond, suite: Suite, done: Clauses, cur: seq<Term>)
    requires |c.suites| == |done| + 1 && c.suites[|done|] == suite && suite.terms == cur && cur != []
    requires forall i :: 0 <= i < |done| ==> c.suites[i].terms == done[i]
    requires forall i, j :: 0 <= i < j < |c.suites| ==> c.suites[i] != c.suites[j]
    ensures Building(c, suite, done, cur)
  {
    assert Shape(c.suites) == done + [cur];
  }

  /** The new term goes to the end of the open suite, or of a new one. */
  method AddTerm(c: Cond, cur_suite: Suite?, term: Term, ghost done: Clauses, ghost cur: seq<Term>)
    returns (suite: Suite)
    requires Building(c, cur_suite, done, cur)
    modifies c`suites, cur_suite
    ensures Building(c, suite, done, cur + [term])
    ensures suite == cur_suite || fresh(suite)
    ensures c.suites == if cur_suite == null then old(c.suites) + [suite] else old(c.suites)
  {
    ghost var shape, n := Shape(c.suites), |done|;
    if cur_suite == null {
      assert shape == done && |c.suites| == n;
      suite := new Suite();
      c.suites := c.suites + [suite];
    } else {
      suite := cur_suite;
      assert shape == done + [cur] && suite.terms == shape[n] == cur && |c.suites| == n + 1;
    }
    suite.terms := suite.terms + [term];
    assert forall i :: 0 <= i < n ==> c.suites[i] != suite && c.suites[i].terms == shape[i];
    BuildingIs(c, suite, done, cur + [term]);
  }

  /** Where the words after an opening brace end. */
  method FindClosing(args: seq<string>, arg: nat) returns (arg_end: nat)
    requires arg + 1 < |args| && args[|args| - 1] == ""
    ensures arg < arg_end < |args| && (args[arg_end] == "" || args[arg_end] == "}")
    ensures forall i :: arg < i < arg_end ==> args[i] != "" && args[i] != "}"
  {
    arg_end := arg + 1;
    while args[arg_end] != "" && args[arg_end] != "}"
      invariant arg < arg_end < |args|
      invariant forall i :: arg < i < arg_end ==> args[i] != "" && args[i] != "}"
      decreases |args| - arg_end
    {
      arg_end := arg_end + 1;
    }
  }

  lemma {:induction false} ClosingIs(args: seq<string>, k: nat)
    requires k < |args| && (args[k] == "" || args[k] == "}")
      && forall i :: 0 <= i < k ==> args[i] != "" && args[i] != "}"
    ensures Closing(args) == if args[k] == "" then None else Some(k)
  {
    if k > 0 { ClosingIs(args[1..], k - 1); }
  }

  /** The ACL that the word at arg names or opens, and the last word that belongs to it. */
  method FindAcl(args: seq<string>, arg: nat, word: string, sc: Names) returns (acl: Option<Acl>, last: nat)
    requires arg + 1 < |args| && args[|args| - 1] == "" && word != "" && word[0] != '!' && !IsOr(word)
    ensures arg <= last < |args| - 1
    ensures acl.None? ==> LexWord(word, args[arg + 1..], sc).None?
    ensures acl.Some? ==> LexWord(word, args[arg + 1..], sc) == Then(Test(acl.value), Lex(args[last + 1..], sc))
  {
    acl, last := None, arg;
    ghost var rest := args[arg + 1..];
    if word == "{" {
      // up to the first closing brace
      var arg_end := FindClosing(args, arg);
      ghost var k := arg_end - arg - 1;
      ClosingIs(rest, k);
      if args[arg_end] == "" { return; }
      var inner := args[arg + 1..arg_end];
      assert inner == rest[..k] && rest[k + 1..] == args[arg_end + 1..];
      if inner in sc.anonymous { acl, last := Some(sc.anonymous[inner]), arg_end; }
    } else if word in sc.known {
      acl := Some(sc.known[word]);
    }
  }

  /** The word without the exclamation marks in front of it, each of which toggles the negation. */
  method StripBangs(word0: string, neg0: bool, ghost rest: seq<string>, ghost sc: Names,
      ghost all: Option<seq<Token>>, ghost done: Clauses, ghost cur: seq<Term>, ghost use: Bitmask,
      ghost val: Bitmask, ghost suite_val: Bitmask) returns (word: string, neg: bool)
    requires Parsing(all, LexWord(word0, rest, sc), done, cur, neg0, use, val, suite_val)
    ensures Parsing(all, LexWord(word, rest, sc), done, cur, neg, use, val, suite_val)
    ensures word == "" || word[0] != '!'
  {
    word, neg := word0, neg0;
    while word != "" && word[0] == '!'
      invariant Parsing(all, LexWord(word, rest, sc), done, cur, neg, use, val, suite_val)
      decreases |word|
    {
      ParsingBang(all, LexWord(word[1..], rest, sc), done, cur, neg, use, val, suite_val);
      neg := !neg;
      word := word[1..];
    }
  }

  /** The word "or": the clause is closed. */
  method CloseClause(c: Cond, cur_suite: Suite?, suite_val: Bitmask, ghost rest: Option<seq<Token>>,
      ghost all: Option<seq<Token>>, ghost done: Clauses, ghost cur: seq<Term>, ghost neg: bool)
    requires Building(c, cur_suite, done, cur) && Parsing(all, Then(Or, rest), done, cur, neg, c.use, c.val, suite_val)
    modifies c`val
    ensures Building(c, null, done + Clause(cur), [])
      && Parsing(all, rest, done + Clause(cur), [], false, c.use, c.val, ALL)
  {
    ParsingOr(all, rest, done, cur, neg, c.use, c.val, suite_val);
    ghost var shape := Shape(c.suites);
    c.val := c.val + suite_val;
    assert Shape(c.suites) == shape && shape + Clause([]) == shape;
  }

  /** A test goes to the end of the clause. */
  method AddTest(c: Cond, cur_suite: Suite?, acl: Acl, neg: bool, ghost suite_val: Bitmask,
      ghost rest: Option<seq<Token>>, ghost all: Option<seq<Token>>, ghost done: Clauses, ghost cur: seq<Term>)
    returns (suite: Suite)
    requires Building(c, cur_suite, done, cur) && Parsing(all, Then(Test(acl), rest), done, cur, neg, c.use, c.val,
      suite_val)
    modifies c`suites, c`use, cur_suite
    ensures Building(c, suite, done, cur + [Term(acl, neg)])
    ensures Parsing(all, rest, done, cur + [Term(acl, neg)], false, c.use, c.val, suite_val * acl.val)
    ensures suite == cur_suite || fresh(suite)
  {
    ghost var use := c.use;
    suite := AddTerm(c, cur_suite, Term(acl, neg), done, cur);
    AddUse(c, acl.use, suite, done, cur + [Term(acl, neg)]);
    ParsingTest(all, acl, rest, done, cur, neg, use, c.val, suite_val);
  }

  method AddUse(c: Cond, use: Bitmask, ghost suite: Suite?, ghost done: Clauses, ghost cur: seq<Term>)
    requires Building(c, suite, done, cur)
    modifies c`use
    ensures Building(c, suite, done, cur) && c.use == old(c.use) + use
  {
    ghost var shape := Shape(c.suites);
    c.use := c.use + use;
    assert Shape(c.suites) == shape;
  }

  /** The end of the words. */
  method EndClauses(c: Cond, ghost cur_suite: Suite?, suite_val: Bitmask, ghost all: Option<seq<Token>>,
      ghost done: Clauses, ghost cur: seq<Term>, ghost neg: bool)
    requires Building(c, cur_suite, done, cur) && Parsing(all, Some([]), done, cur, neg, c.use, c.val, suite_val)
    modifies c`val
    ensures all.Some? && Shape(c.suites) == Spelled(all.value) && c.use == UseOf(all.value) && c.val == ValOf(all.value)
  {
    ParsingEnds(all, done, cur, neg, c.use, c.val, suite_val);
    ghost var shape := Shape(c.suites);
    c.val := c.val + suite_val;
    assert Shape(c.suites) == shape;
  }

  lemma ParsingStarts(all: Option<seq<Token>>)
    ensures Parsing(all, all, [], [], false, {}, {}, ALL)
  {
    if all.Some? {
      ValStart(all.value);
      SpelledStart(all.value);
    }
  }

  /** A word that names an ACL, or an opening brace. */
  method ParseTest(args: seq<string>, arg0: nat, word: string, sc: Names, c: Cond, suite0: Suite?, val0: Bitmask,
                   neg: bool, ghost all: Option<seq<Token>>, ghost done: Clauses, ghost cur: seq<Term>)
    returns (ok: bool, arg: nat, suite: Suite?, suite_val: Bitmask, ghost term: Term)
    requires arg0 + 1 < |args| && args[|args| - 1] == "" && word != "" && word[0] != '!' && !IsOr(word)
    requires Building(c, suite0, done, cur) && Parsing(all, LexWord(word, args[arg0 + 1..], sc), done, cur, neg, c.use,
      c.val, val0)
    modifies c, suite0
    ensures !ok ==> all.None?
    ensures ok ==> arg0 < arg < |args| && (suite == suite0 || fresh(suite)) && Building(c, suite, done, cur + [term])
    ensures ok ==> Parsing(all, Lex(args[arg..], sc), done, cur + [term], false, c.use, c.val, suite_val)
  {
    ok, arg, suite, suite_val, term := false, arg0, suite0, val0, Term(Acl([], {}, {}), neg);
    var acl, last := FindAcl(args, arg0, word, sc);
    if acl.Some? {
      suite := AddTest(c, suite0, acl.value, neg, val0, Lex(args[last + 1..], sc), all, done, cur);
      ok, arg, suite_val, term := true, last + 1, val0 * acl.value.val, Term(acl.value, neg);
    }
  }

  /** One word of the condition, or all words between braces. */
  method ParseWord(args: seq<string>, arg0: nat, sc: Names, c: Cond, suite0: Suite?, val0: Bitmask, neg0: bool,
                   ghost all: Option<seq<Token>>, ghost done0: Clauses, ghost cur0: seq<Term>)
    returns (ok: bool, arg: nat, suite: Suite?, suite_val: Bitmask, neg: bool, ghost done: Clauses,
      ghost cur: seq<Term>)
    requires arg0 < |args| && args[|args| - 1] == "" && args[arg0] != ""
    requires Building(c, suite0, done0, cur0) && Parsing(all, Lex(args[arg0..], sc), done0, cur0, neg0, c.use, c.val,
      val0)
    modifies c, suite0
    ensures !ok ==> all.None?
    ensures ok ==>
      && arg0 < arg < |args| && (suite == null || suite == suite0 || fresh(suite))
      && Building(c, suite, done, cur)
    ensures ok ==> Parsing(all, Lex(args[arg..], sc), done, cur, neg, c.use, c.val, suite_val)
  {
    ok, arg, suite, suite_val, done, cur := true, arg0 + 1, suite0, val0, done0, cur0;
    assert args[arg0..][1..] == args[arg..];
    var word;
    word, neg := StripBangs(args[arg0], neg0, args[arg..], sc, all, done, cur, c.use, c.val, suite_val);
    // nothing but exclamation marks
    if word == "" { return; }
    if IsOr(word) {
      CloseClause(c, suite, suite_val, Lex(args[arg..], sc), all, done, cur, neg);
      suite_val, suite, neg, done, cur := ALL, null, false, done + Clause(cur), [];
    } else {
      ghost var term;
      ok, arg, suite, suite_val, term := ParseTest(args, arg0, word, sc, c, suite, suite_val, neg, all, done, cur);
      neg, cur := false, cur + [term];
    }
  }

  /** parse_acl_cond: the words up to the first empty one become the clauses they spell out, or nothing if
      they are not a condition. */
  method ParseCond(args: seq<string>, sc: Names) returns (cond: Cond?)
    requires args != [] && args[|args| - 1] == ""
    ensures cond == null <==> Lex(args, sc).None?
    ensures cond != null ==>
      var ts := Lex(args, sc).value;
      && fresh(cond) && Shape(cond.suites) == Spelled(ts)
      && cond.use == MeantUse(Spelled(ts)) && cond.val == MeantVal(Spelled(ts)) + if SomeEmpty(ts) then ALL else {}
  {
    var c := new Cond();
    var cur_suite: Suite? := null;
    var suite_val, neg, arg := ALL, false, 0;
    ghost var all, done: Clauses, cur: seq<Term> := Lex(args, sc), [], [];
    assert args[0..] == args;
    ParsingStarts(all);
    while args[arg] != ""
      invariant arg < |args| && fresh(c) && (cur_suite != null ==> fresh(cur_suite))
        && Building(c, cur_suite, done, cur)
      invariant Parsing(all, Lex(args[arg..], sc), done, cur, neg, c.use, c.val, suite_val)
      decreases |args| - arg
    {
      var ok;
      ok, arg, cur_suite, suite_val, neg, done, cur := ParseWord(args, arg, sc, c, cur_suite, suite_val, neg, all,
        done, cur);
      if !ok { return null; }
    }
    EndClauses(c, cur_suite, suite_val, all, done, cur, neg);
    UseIs(all.value);
    ValOfIs(all.value);
    return c;
  }
}
