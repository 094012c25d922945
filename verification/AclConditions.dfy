/**
  ACL conditions: a disjunction of conjunctions of tests, which is evaluated with three values because some
  tests may still lack data.
 */
module AclConditions {

  // ---- Three-valued results ----

  /** ACL_TEST_FAIL, ACL_TEST_MISS and ACL_TEST_PASS: "or" and "and" are bitwise. */
  type TestRes = b: bv8 | b == 0 || b == 1 || b == 3
  const FAIL: TestRes := 0
  const MISS: TestRes := 1
  const PASS: TestRes := 3

  /** acl_neg: pass and fail swap, the rest stays. */
  function Neg(res: TestRes): (r: TestRes)
    ensures r == if res == PASS then FAIL else if res == FAIL then PASS else MISS
  {
    3 >> res
  }

  /** An unsigned int as a set of bits; ALL is ~0U. */
  type Bitmask = set<nat>
  const ALL: Bitmask := set b: nat | b < 32

  /** An expression is known by its number. */
  datatype Acl = Acl(exprs: seq<nat>, use: Bitmask, val: Bitmask)

  datatype Term = Term(acl: Acl, neg: bool)

  class Suite {
    var terms: seq<Term>
    constructor ()
      ensures terms == []
    {
      terms := [];
    }
  }

  class Cond {
    var suites: seq<Suite>
    var use: Bitmask
    var val: Bitmask
    constructor ()
      ensures suites == [] && use == val == {}
    {
      suites, use, val := [], {}, {};
    }
  }

  // ---- Evaluation ----

  /** One answer of sample_process: whether there is a sample, whether it matches the patterns, whether it
      may change, and whether more are to be fetched. */
  datatype Fetch = Fetch(found: bool, matches: bool, mayChange: bool, notLast: bool)

  /** The answers for one expression: samples are fetched until one fails or is the last one. */
  ghost predicate Complete(s: seq<Fetch>)
  {
    && s != [] && !(s[|s| - 1].found && s[|s| - 1].notLast)
    && forall i :: 0 <= i < |s| - 1 ==> s[i].found && s[i].notLast
  }

  ghost predicate SomeMatch(s: seq<Fetch>)
  {
    exists i :: 0 <= i < |s| && s[i].found && s[i].matches
  }

  /** The result of an expression is open: no sample matches, and the last answer may change. */
  ghost predicate Open(s: seq<Fetch>, final: bool)
  {
    !SomeMatch(s) && s != [] && s[|s| - 1].mayChange && !final
  }

  /** The result of an expression: it passes by any sample that matches. */
  ghost function ExprRes(s: seq<Fetch>, final: bool): TestRes
  {
    if SomeMatch(s) then PASS else if Open(s, final) then MISS else FAIL
  }

  /** What the data give for each expression. */
  type Data = nat -> seq<Fetch>

  ghost function AclRes(exprs: seq<nat>, data: Data, final: bool): TestRes
  {
    if exists i :: 0 <= i < |exprs| && ExprRes(data(exprs[i]), final) == PASS then PASS
    else if exists i :: 0 <= i < |exprs| && ExprRes(data(exprs[i]), final) == MISS then MISS
    else FAIL
  }

  ghost function TermRes(term: Term, data: Data, final: bool): TestRes
  {
    if term.neg then Neg(AclRes(term.acl.exprs, data, final)) else AclRes(term.acl.exprs, data, final)
  }

  /** The loop over the expressions of an ACL. */
  method ExecAcl(acl: Acl, data: Data, final: bool) returns (acl_res: TestRes)
    requires forall e :: e in acl.exprs ==> Complete(data(e))
    ensures acl_res == AclRes(acl.exprs, data, final)
  {
    acl_res := FAIL;
    var i := 0;
    while i < |acl.exprs| && acl_res != PASS
      invariant 0 <= i <= |acl.exprs| && acl_res == AclRes(acl.exprs[..i], data, final)
    {
      assert acl.exprs[i] in acl.exprs;
      var res := ExecExpr(data(acl.exprs[i]), final, acl_res);
      OneMoreExpr(acl.exprs, i, data, final);
      acl_res := res;
      i := i + 1;
    }
    if acl_res == PASS { PassStays(acl.exprs, i, data, final); } else { assert acl.exprs[..i] == acl.exprs; }
  }

  lemma OneMoreExpr(exprs: seq<nat>, i: nat, data: Data, final: bool)
    requires i < |exprs|
    ensures AclRes(exprs[..i + 1], data, final) == AclRes(exprs[..i], data, final) | ExprRes(data(exprs[i]), final)
  {
    var a, b := exprs[..i], exprs[..i + 1];
    assert forall j :: 0 <= j < i ==> a[j] == b[j];
    assert b[i] == exprs[i];
  }

  lemma PassStays(exprs: seq<nat>, i: nat, data: Data, final: bool)
    requires i <= |exprs| && AclRes(exprs[..i], data, final) == PASS
    ensures AclRes(exprs, data, final) == PASS
  {
    assert forall j :: 0 <= j < i ==> exprs[..i][j] == exprs[j];
  }

  /** One expression: fetches samples until one matches, fails or is the last one. */
  method ExecExpr(s: seq<Fetch>, final: bool, res: TestRes) returns (acl_res: TestRes)
    requires Complete(s) && res != PASS
    ensures acl_res == res | ExprRes(s, final)
    ensures acl_res == if SomeMatch(s) then PASS else if Open(s, final) then MISS else res
  {
    acl_res := res;
    var i := 0;
    while true
      invariant 0 <= i < |s| && acl_res == res && !SomeMatch(s[..i])
      decreases |s| - i
    {
      var smp := s[i];
      assert forall j :: 0 <= j < i ==> s[..i][j] == s[j];
      if !smp.found {
        if smp.mayChange && !final { acl_res := acl_res | MISS; }
        return;
      }
      acl_res := acl_res | if smp.matches then PASS else FAIL;
      if acl_res == PASS { return; }
      if smp.notLast {
        assert forall j :: 0 <= j <= i ==> s[..i + 1][j] == s[j];
        i := i + 1;
      } else {
        if smp.mayChange && !final { acl_res := acl_res | MISS; }
        return;
      }
    }
  }

  type Clauses = seq<seq<Term>>

  ghost function Shape(suites: seq<Suite>): (c: Clauses)
    reads suites
    ensures |c| == |suites|
  {
    seq(|suites|, i requires 0 <= i < |suites| reads suites => suites[i].terms)
  }

  ghost predicate Evaluable(terms: seq<Term>, data: Data)
  {
    forall i :: 0 <= i < |terms| ==> forall e :: e in terms[i].acl.exprs ==> Complete(data(e))
  }

  /** The first term that does not pass, if any, decides. */
  ghost function SuiteRes(terms: seq<Term>, data: Data, final: bool): TestRes
  {
    if terms == [] then PASS
    else if TermRes(terms[0], data, final) != PASS then TermRes(terms[0], data, final)
    else SuiteRes(terms[1..], data, final)
  }

  method ExecSuite(terms: seq<Term>, data: Data, final: bool) returns (suite_res: TestRes)
    requires Evaluable(terms, data)
    ensures suite_res == SuiteRes(terms, data, final)
  {
    suite_res := PASS;
    var i := 0;
    while i < |terms|
      invariant 0 <= i <= |terms| && suite_res == PASS
        && SuiteRes(terms, data, final) == SuiteRes(terms[i..], data, final)
    {
      var term := terms[i];
      var acl_res := ExecAcl(term.acl, data, final);
      if term.neg { acl_res := Neg(acl_res); }
      suite_res := suite_res & acl_res;
      assert terms[i..][1..] == terms[i + 1..];
      if suite_res != PASS { return; }
      i := i + 1;
    }
  }

  /** Some suite passes, or all fail, or neither. */
  ghost predicate CondRes(c: Clauses, data: Data, final: bool, res: TestRes)
  {
    && (res == PASS <==> exists i :: 0 <= i < |c| && SuiteRes(c[i], data, final) == PASS)
    && (res == FAIL <==> forall i :: 0 <= i < |c| ==> SuiteRes(c[i], data, final) == FAIL)
  }

  /** acl_exec_cond. */
  method ExecCond(cond: Cond, data: Data, final: bool) returns (cond_res: TestRes)
    requires forall i :: 0 <= i < |cond.suites| ==> Evaluable(cond.suites[i].terms, data)
    ensures CondRes(Shape(cond.suites), data, final, cond_res)
    ensures var c := Shape(cond.suites); cond_res == PASS <==> exists i :: 0 <= i < |c| && AllPass(c[i], data, final)
    ensures var c := Shape(cond.suites);
      cond_res == FAIL <==> forall i :: 0 <= i < |c| ==> StopsAtFail(c[i], data, final)
  {
    cond_res := FAIL;
    ghost var c := Shape(cond.suites);
    var i := 0;
    while i < |cond.suites|
      invariant 0 <= i <= |cond.suites| && cond_res != PASS
      invariant forall j :: 0 <= j < i ==> SuiteRes(c[j], data, final) != PASS
      invariant cond_res == FAIL <==> forall j :: 0 <= j < i ==> SuiteRes(c[j], data, final) == FAIL
    {
      assert c[i] == cond.suites[i].terms;
      var suite_res := ExecSuite(cond.suites[i].terms, data, final);
      cond_res := cond_res | suite_res;
      if cond_res == PASS { break; }
      i := i + 1;
    }
    CondIs(c, data, final, cond_res);
  }

  // ---- What the results mean ----

  /** A resolution says of each expression whether it holds once all data are there. */
  type World = nat -> bool

  ghost predicate Passes(term: Term, data: Data, final: bool)
  {
    if term.neg then forall e :: e in term.acl.exprs ==> !SomeMatch(data(e)) && !Open(data(e), final)
    else exists e :: e in term.acl.exprs && SomeMatch(data(e))
  }

  ghost predicate Fails(term: Term, data: Data, final: bool)
  {
    if term.neg then exists e :: e in term.acl.exprs && SomeMatch(data(e))
    else forall e :: e in term.acl.exprs ==> !SomeMatch(data(e)) && !Open(data(e), final)
  }

  lemma TermIs(term: Term, data: Data, final: bool)
    ensures TermRes(term, data, final) == PASS <==> Passes(term, data, final)
    ensures TermRes(term, data, final) == FAIL <==> Fails(term, data, final)
  {
    var exprs := term.acl.exprs;
    assert forall i :: 0 <= i < |exprs| ==> exprs[i] in exprs;
    assert forall e :: ExprRes(data(e), final) == MISS <==> Open(data(e), final);
    assert forall e :: ExprRes(data(e), final) == PASS <==> SomeMatch(data(e));
  }

  ghost predicate AllPass(terms: seq<Term>, data: Data, final: bool)
  {
    forall j :: 0 <= j < |terms| ==> Passes(terms[j], data, final)
  }

  /** How many terms pass before the first that does not. */
  ghost function PassesUpTo(terms: seq<Term>, data: Data, final: bool): (j: nat)
    ensures j <= |terms| && (forall k :: 0 <= k < j ==> Passes(terms[k], data, final))
    ensures j < |terms| ==> !Passes(terms[j], data, final)
  {
    if terms == [] || !Passes(terms[0], data, final) then 0 else 1 + PassesUpTo(terms[1..], data, final)
  }

  /** The first term that does not pass fails. */
  ghost predicate StopsAtFail(terms: seq<Term>, data: Data, final: bool)
  {
    var j := PassesUpTo(terms, data, final);
    j < |terms| && Fails(terms[j], data, final)
  }

  /** The first term that does not pass does not fail either. */
  ghost predicate StopsAtOpen(terms: seq<Term>, data: Data, final: bool)
  {
    var j := PassesUpTo(terms, data, final);
    j < |terms| && !Fails(terms[j], data, final)
  }

  lemma {:induction false} SuiteIs(terms: seq<Term>, data: Data, final: bool)
    ensures SuiteRes(terms, data, final) == PASS <==> AllPass(terms, data, final)
    ensures SuiteRes(terms, data, final) == FAIL <==> StopsAtFail(terms, data, final)
    ensures SuiteRes(terms, data, final) == MISS <==> StopsAtOpen(terms, data, final)
  {
    if terms != [] {
      TermIs(terms[0], data, final);
      if Passes(terms[0], data, final) {
        SuiteIs(terms[1..], data, final);
        var j := PassesUpTo(terms[1..], data, final);
        assert j < |terms[1..]| ==> terms[1..][j] == terms[j + 1];
      }
    }
  }

  /** The answer in terms of samples that match and answers that may change: it passes if all terms of some
      conjunction do, and fails if in each the first term that does not pass fails. */
  lemma CondIs(c: Clauses, data: Data, final: bool, res: TestRes)
    requires CondRes(c, data, final, res)
    ensures res == PASS <==> exists i :: 0 <= i < |c| && AllPass(c[i], data, final)
    ensures res == FAIL <==> forall i :: 0 <= i < |c| ==> StopsAtFail(c[i], data, final)
  {
    forall i | 0 <= i < |c|
      ensures SuiteRes(c[i], data, final) == PASS <==> AllPass(c[i], data, final)
      ensures SuiteRes(c[i], data, final) == FAIL <==> StopsAtFail(c[i], data, final)
    {
      SuiteIs(c[i], data, final);
    }
  }

  /** The resolution agrees with what is settled. */
  ghost predicate Resolves(w: World, c: Clauses, data: Data, final: bool)
  {
    forall i, j, e :: 0 <= i < |c| && 0 <= j < |c[i]| && e in c[i][j].acl.exprs ==>
      (SomeMatch(data(e)) ==> w(e)) && (w(e) ==> SomeMatch(data(e)) || Open(data(e), final))
  }

  ghost predicate Holds(term: Term, w: World)
  {
    (exists e :: e in term.acl.exprs && w(e)) != term.neg
  }

  ghost predicate AllHold(terms: seq<Term>, w: World)
  {
    forall j :: 0 <= j < |terms| ==> Holds(terms[j], w)
  }

  /** A disjunction of conjunctions of tests. */
  ghost predicate Meaning(c: Clauses, w: World)
  {
    exists i :: 0 <= i < |c| && AllHold(c[i], w)
  }

  ghost predicate NoneOpen(c: Clauses, data: Data, final: bool)
  {
    forall i, j, e :: 0 <= i < |c| && 0 <= j < |c[i]| && e in c[i][j].acl.exprs ==> !Open(data(e), final)
  }

  lemma TermSettled(term: Term, w: World, data: Data, final: bool)
    requires forall e :: e in term.acl.exprs ==>
      (SomeMatch(data(e)) ==> w(e)) && (w(e) ==> SomeMatch(data(e)) || Open(data(e), final))
    ensures Passes(term, data, final) ==> Holds(term, w)
    ensures Fails(term, data, final) ==> !Holds(term, w)
    ensures (forall e :: e in term.acl.exprs ==> !Open(data(e), final)) ==>
      Passes(term, data, final) || Fails(term, data, final)
  {
  }

  lemma SuiteSettled(terms: seq<Term>, w: World, data: Data, final: bool)
    requires Resolves(w, [terms], data, final)
    ensures AllPass(terms, data, final) ==> AllHold(terms, w)
    ensures StopsAtFail(terms, data, final) ==> !AllHold(terms, w)
    ensures NoneOpen([terms], data, final) ==> AllPass(terms, data, final) || StopsAtFail(terms, data, final)
  {
    assert forall j :: 0 <= j < |terms| ==> [terms][0][j] == terms[j];
    forall j | 0 <= j < |terms|
      ensures Passes(terms[j], data, final) ==> Holds(terms[j], w)
      ensures Fails(terms[j], data, final) ==> !Holds(terms[j], w)
      ensures NoneOpen([terms], data, final) ==> Passes(terms[j], data, final) || Fails(terms[j], data, final)
    {
      TermSettled(terms[j], w, data, final);
    }
  }

  /** A pass or fail holds under every later resolution of what is open, and with nothing open the answer is
      one of them. */
  lemma ResultsHold(c: Clauses, w: World, data: Data, final: bool, res: TestRes)
    requires CondRes(c, data, final, res) && Resolves(w, c, data, final)
    ensures res == PASS ==> Meaning(c, w)
    ensures res == FAIL ==> !Meaning(c, w)
    ensures NoneOpen(c, data, final) ==> res != MISS && (res == PASS <==> Meaning(c, w))
  {
    CondIs(c, data, final, res);
    forall i | 0 <= i < |c|
      ensures AllPass(c[i], data, final) ==> AllHold(c[i], w)
      ensures StopsAtFail(c[i], data, final) ==> !AllHold(c[i], w)
      ensures NoneOpen(c, data, final) ==> AllPass(c[i], data, final) || StopsAtFail(c[i], data, final)
    {
      ResolvesEach(w, c, data, final, i);
      SuiteSettled(c[i], w, data, final);
    }
  }

  /** What the samples there are say. */
  ghost function Matched(data: Data): World
  {
    (e: nat) => SomeMatch(data(e))
  }

  /** Final data, or answers of which none that lacks a match may change, give the very meaning of the condition. */
  lemma Exact(c: Clauses, data: Data, final: bool, res: TestRes)
    requires CondRes(c, data, final, res)
    requires final || forall i, j, e :: 0 <= i < |c| && 0 <= j < |c[i]| && e in c[i][j].acl.exprs ==>
      SomeMatch(data(e)) || data(e) == [] || !data(e)[|data(e)| - 1].mayChange
    ensures res != MISS && (res == PASS <==> Meaning(c, Matched(data)))
  {
    ResultsHold(c, Matched(data), data, final, res);
  }

  /** What fetching again may give: other answers in the place of a last one that may change, if none matches;
      what is settled stays. */
  ghost predicate Later(s: seq<Fetch>, s': seq<Fetch>)
  {
    if !SomeMatch(s) && s != [] && s[|s| - 1].mayChange then |s'| >= |s| && s'[..|s| - 1] == s[..|s| - 1] else s' == s
  }

  /** A pass or fail stays when the condition is evaluated again, whatever answers have come meanwhile. */
  lemma ResultStays(c: Clauses, data: Data, data': Data, final': bool, res: TestRes, res': TestRes)
    requires CondRes(c, data, false, res) && res != MISS && CondRes(c, data', final', res')
    requires forall i, j, e :: 0 <= i < |c| && 0 <= j < |c[i]| && e in c[i][j].acl.exprs ==> Later(data(e), data'(e))
    ensures res' == res
  {
    CondIs(c, data, false, res);
    CondIs(c, data', final', res');
    forall i | 0 <= i < |c|
      ensures AllPass(c[i], data, false) ==> AllPass(c[i], data', final')
      ensures StopsAtFail(c[i], data, false) ==> StopsAtFail(c[i], data', final')
    {
      SuiteStays(c[i], data, data', final');
    }
    if res == FAIL {
      forall i | 0 <= i < |c| ensures !AllPass(c[i], data', final') {}
    }
  }

  lemma SuiteStays(terms: seq<Term>, data: Data, data': Data, final': bool)
    requires forall j, e :: 0 <= j < |terms| && e in terms[j].acl.exprs ==> Later(data(e), data'(e))
    ensures AllPass(terms, data, false) ==> AllPass(terms, data', final')
    ensures StopsAtFail(terms, data, false) ==> StopsAtFail(terms, data', final')
  {
    forall j | 0 <= j < |terms|
      ensures Passes(terms[j], data, false) ==> Passes(terms[j], data', final')
      ensures Fails(terms[j], data, false) ==>
        Fails(terms[j], data', final') && !Passes(terms[j], data', final')
    {
      TermStays(terms[j], data, data', final');
    }
  }

  lemma TermStays(term: Term, data: Data, data': Data, final': bool)
    requires forall e :: e in term.acl.exprs ==> Later(data(e), data'(e))
    ensures Passes(term, data, false) ==> Passes(term, data', final')
    ensures Fails(term, data, false) ==> Fails(term, data', final') && !Passes(term, data', final')
  {
    assert forall e :: e in term.acl.exprs && !Open(data(e), false) ==> data'(e) == data(e);
  }

  /** And an answer that is open can become either: it is not settled too late. */
  lemma OpenIsOpen(e: nat, data: Data, res: TestRes)
    requires var c := [[Term(Acl([e], {}, {}), false)]]; CondRes(c, data, false, res)
    ensures res == MISS <==> Open(data(e), false)
  {
    var term := Term(Acl([e], {}, {}), false);
    CondIs([[term]], data, false, res);
    assert e in term.acl.exprs && [[term]][0] == [term];
    assert Passes(term, data, false) <==> SomeMatch(data(e));
  }

  /** The expression is tested in a negated term. */
  ghost predicate Denied(terms: seq<Term>, e: nat)
  {
    exists j :: 0 <= j < |terms| && terms[j].neg && e in terms[j].acl.exprs
  }

  /** Some resolution makes a conjunction hold: no expression of a negated term matches, and each other term
      has one that matches, or an open one that no negated term denies. */
  ghost predicate CanPass(terms: seq<Term>, data: Data, final: bool)
  {
    forall j :: 0 <= j < |terms| ==>
      if terms[j].neg then forall e :: e in terms[j].acl.exprs ==> !SomeMatch(data(e))
      else
        exists e :: e in terms[j].acl.exprs &&
          (SomeMatch(data(e)) || (Open(data(e), final) && !Denied(terms, e)))
  }

  /** The resolution that is best for a conjunction: what is open holds unless a negated term denies it. */
  ghost function Best(terms: seq<Term>, data: Data, final: bool): World
  {
    (e: nat) => SomeMatch(data(e)) || (Open(data(e), final) && !Denied(terms, e))
  }

  lemma BestHolds(terms: seq<Term>, data: Data, final: bool)
    requires CanPass(terms, data, final)
    ensures AllHold(terms, Best(terms, data, final))
  {
    var w := Best(terms, data, final);
    forall j | 0 <= j < |terms| ensures Holds(terms[j], w) {
      var exprs := terms[j].acl.exprs;
      if terms[j].neg {
        forall e | e in exprs ensures !w(e) {
          assert Denied(terms, e);
        }
      }
    }
  }

  lemma NotDenied(terms: seq<Term>, w: World, e: nat)
    requires AllHold(terms, w) && w(e)
    ensures !Denied(terms, e)
  {
    forall k | 0 <= k < |terms| && terms[k].neg ensures e !in terms[k].acl.exprs {
      assert Holds(terms[k], w);
    }
  }

  lemma HoldsCanPass(terms: seq<Term>, w: World, data: Data, final: bool)
    requires Resolves(w, [terms], data, final) && AllHold(terms, w)
    ensures CanPass(terms, data, final)
  {
    assert forall j :: 0 <= j < |terms| ==> [terms][0][j] == terms[j];
    forall j | 0 <= j < |terms|
      ensures if terms[j].neg then forall e :: e in terms[j].acl.exprs ==> !SomeMatch(data(e))
        else
          exists e :: e in terms[j].acl.exprs &&
            (SomeMatch(data(e)) || (Open(data(e), final) && !Denied(terms, e)))
    {
      assert Holds(terms[j], w);
      if !terms[j].neg {
        var e :| e in terms[j].acl.exprs && w(e);
        NotDenied(terms, w, e);
      }
    }
  }

  ghost predicate CertainToFail(c: Clauses, data: Data, final: bool)
  {
    forall w: World :: Resolves(w, c, data, final) ==> !Meaning(c, w)
  }

  lemma ResolvesEach(w: World, c: Clauses, data: Data, final: bool, i: nat)
    requires i < |c| && Resolves(w, c, data, final)
    ensures Resolves(w, [c[i]], data, final)
  {
    assert forall j :: 0 <= j < |c[i]| ==> [c[i]][0][j] == c[i][j];
  }

  /** A condition fails whatever becomes of the open tests if and only if none of its conjunctions can pass. */
  lemma CertainIff(c: Clauses, data: Data, final: bool)
    ensures CertainToFail(c, data, final) <==> forall i :: 0 <= i < |c| ==> !CanPass(c[i], data, final)
  {
    if CertainToFail(c, data, final) {
      forall i | 0 <= i < |c| ensures !CanPass(c[i], data, final) {
        if CanPass(c[i], data, final) {
          var w := Best(c[i], data, final);
          BestHolds(c[i], data, final);
          assert Resolves(w, c, data, final) && Meaning(c, w);
        }
      }
    }
    if forall i :: 0 <= i < |c| ==> !CanPass(c[i], data, final) {
      forall w: World | Resolves(w, c, data, final) ensures !Meaning(c, w) {
        forall i | 0 <= i < |c| ensures !AllHold(c[i], w) {
          ResolvesEach(w, c, data, final, i);
          if AllHold(c[i], w) { HoldsCanPass(c[i], w, data, final); }
        }
      }
    }
  }

  /** The condition is reported as open though it is certain to fail just when none of its conjunctions can
      pass, while in some one of them the first term that does not pass does not fail either: the evaluation of
      that one stops there, before the terms that show that it must fail. */
  lemma OpenThoughCertain(c: Clauses, data: Data, final: bool, res: TestRes)
    requires CondRes(c, data, final, res)
    ensures res == MISS && CertainToFail(c, data, final) <==>
      (forall i :: 0 <= i < |c| ==> !CanPass(c[i], data, final))
        && exists i :: 0 <= i < |c| && StopsAtOpen(c[i], data, final)
  {
    CertainIff(c, data, final);
    forall i | 0 <= i < |c|
      ensures SuiteRes(c[i], data, final) == PASS ==> CanPass(c[i], data, final)
      ensures SuiteRes(c[i], data, final) == MISS <==> StopsAtOpen(c[i], data, final)
    {
      SuiteIs(c[i], data, final);
      if SuiteRes(c[i], data, final) == PASS { PassCanPass(c[i], data, final); }
    }
  }

  lemma PassCanPass(terms: seq<Term>, data: Data, final: bool)
    requires AllPass(terms, data, final)
    ensures CanPass(terms, data, final)
  {
    forall j | 0 <= j < |terms| && !terms[j].neg
      ensures exists e :: e in terms[j].acl.exprs && SomeMatch(data(e))
    {
      assert Passes(terms[j], data, final);
    }
  }

  /** Such a condition: an open term followed by one that fails. */
  lemma OpenBeforeFailing(data: Data, open: nat, shut: nat)
    requires Open(data(open), false) && !SomeMatch(data(shut)) && !Open(data(shut), false)
    ensures var c := [[Term(Acl([open], {}, {}), false), Term(Acl([shut], {}, {}), false)]];
      CondRes(c, data, false, MISS) && CertainToFail(c, data, false)
  {
    var a, b := Term(Acl([open], {}, {}), false), Term(Acl([shut], {}, {}), false);
    var c := [[a, b]];
    assert open in a.acl.exprs;
    assert StopsAtOpen(c[0], data, false);
    SuiteIs(c[0], data, false);
    assert SuiteRes(c[0], data, false) == MISS;
    assert !CanPass(c[0], data, false) by { assert !c[0][1].neg; }
    OpenThoughCertain(c, data, false, MISS);
  }
}
