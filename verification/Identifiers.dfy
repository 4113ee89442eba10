/** The identifier grammar: four naming styles, recognised by ordered choice,
    and comma-separated lists of identifiers. */
module Identifiers {
  import opened Peg

  datatype Rule = CamelCase | CamelBack | LowerSnake | UpperSnake

  const LO := Char(Lower)
  const UP := Char(Upper)
  const DG := Char(Digit)
  const LO_DG := Choice(LO, DG)
  const UP_DG := Choice(UP, DG)

  /** up ~ dg* ~ lo+ ~ (lo | dg)* */
  const WORD := Seq(UP, Seq(Star(DG), Seq(Plus(LO), Star(LO_DG))))

  const CAMEL_CASE := Plus(WORD)
  const CAMEL_BACK := Seq(LO, Seq(Star(LO_DG), CAMEL_CASE))
  const LOWER_SNAKE := Seq(LO, Seq(Star(LO_DG), Star(Seq(Char(Underscore), Plus(LO_DG)))))
  const UPPER_SNAKE := Seq(UP, Seq(Star(UP_DG), Star(Seq(Char(Underscore), Plus(UP_DG)))))

  function Body(r: Rule): Expr {
    match r
    case CamelCase => CAMEL_CASE
    case CamelBack => CAMEL_BACK
    case LowerSnake => LOWER_SNAKE
    case UpperSnake => UPPER_SNAKE
  }

  /** The first alternative that matches a prefix, with the length it consumed. */
  function FirstOf(rules: seq<Rule>, s: string): (r: Option<(Rule, nat)>)
    ensures r.Some? ==> r.value.0 in rules && Match(Body(r.value.0), s) == Some(r.value.1) && r.value.1 <= |s|
  {
    if rules == [] then None
    else
      match Match(Body(rules[0]), s)
      case Some(k) => Some((rules[0], k))
      case None => FirstOf(rules[1..], s)
  }

  const ORDER: seq<Rule> := [CamelCase, CamelBack, LowerSnake, UpperSnake]

  function SingleTerm(s: string): Option<(Rule, nat)> {
    FirstOf(ORDER, s)
  }

  /** SOI ~ single_term ~ EOI, for a given order of the alternatives. */
  function TermInOrder(rules: seq<Rule>, s: string): Option<Rule> {
    match FirstOf(rules, s)
    case Some((r, k)) => if k == |s| then Some(r) else None
    case None => None
  }

  function Term(s: string): Option<Rule> {
    TermInOrder(ORDER, s)
  }

  // ----- Each alternative alone is exact ---------------------------------

  /** lo+ ~ (lo | dg)* is ambiguous as a regular expression; the equivalent
      lo ~ (lo | dg)* is not. */
  const TAIL := Seq(Plus(LO), Star(LO_DG))
  const TAIL_DET := Seq(LO, Star(LO_DG))
  const WORD_DET := Seq(UP, Seq(Star(DG), TAIL_DET))

  lemma {:induction false} GreedyLowerFirst(s: string)
    ensures Match(Star(LO_DG), s).value == Match(Star(LO), s).value
            + Match(Star(LO_DG), s[Match(Star(LO), s).value..]).value
    decreases |s|
  {
    if s != [] && ClassOf(s[0]) == Lower {
      var rest := s[1..];
      GreedyLowerFirst(rest);
      var k := Match(Star(LO), rest).value;
      assert Match(LO, s) == Some(1) && Match(LO_DG, s) == Some(1);
      assert Match(Star(LO), s) == Some(1 + k);
      assert rest[k..] == s[1 + k..];
    } else {
      assert Match(LO, s) == None;
      assert Match(Star(LO), s) == Some(0);
      assert s[0..] == s;
    }
  }

  lemma TailMatches(s: string)
    ensures Match(TAIL, s) == Match(TAIL_DET, s)
  {
    if Match(LO, s).Some? {
      GreedyLowerFirst(s[1..]);
      var k := Match(Star(LO), s[1..]).value;
      assert s[1..][k..] == s[1 + k..];
    }
  }

  lemma WordMatches(s: string)
    ensures Match(WORD, s) == Match(WORD_DET, s)
  {
    if Match(UP, s).Some? {
      var s1 := s[1..];
      TailMatches(s1[Match(Star(DG), s1).value..]);
    }
  }

  lemma LowerIncluded(t: string)
    requires In(Star(LO), t)
    ensures In(Star(LO_DG), t)
  {
    StarMonotone(LO, LO_DG, t);
  }

  lemma TailIncluded(t: string)
    requires In(TAIL, t)
    ensures In(TAIL_DET, t)
  {
    hide In;
    var k := SeqSplit(Plus(LO), Star(LO_DG), t);
    var u := t[..k];
    var j := SeqSplit(LO, Star(LO), u);
    LowerIncluded(u[j..]);
    StarConcat(LO_DG, u[j..], t[k..]);
    InSeq(LO, Star(LO_DG), u[..j], u[j..] + t[k..]);
    assert t == u[..j] + (u[j..] + t[k..]);
  }

  lemma WordIncluded(t: string)
    requires In(WORD, t)
    ensures In(WORD_DET, t)
  {
    hide In;
    forall u | In(TAIL, u)
      ensures In(TAIL_DET, u)
    {
      TailIncluded(u);
    }
    forall u | In(Seq(Star(DG), TAIL), u)
      ensures In(Seq(Star(DG), TAIL_DET), u)
    {
      InSeqMonotone(Star(DG), TAIL, TAIL_DET, u);
    }
    InSeqMonotone(UP, Seq(Star(DG), TAIL), Seq(Star(DG), TAIL_DET), t);
  }

  lemma CamelCaseMatches(s: string)
    ensures Match(CAMEL_CASE, s) == Match(Plus(WORD_DET), s)
  {
    forall u
      ensures Match(WORD, u) == Match(WORD_DET, u)
    {
      WordMatches(u);
    }
    if Match(WORD, s).Some? { StarMatchCongruence(WORD, WORD_DET, s[Match(WORD, s).value..]); }
  }

  lemma CamelCaseIncluded(t: string)
    requires In(CAMEL_CASE, t)
    ensures In(Plus(WORD_DET), t)
  {
    forall u | In(WORD, u)
      ensures In(WORD_DET, u)
    {
      WordIncluded(u);
    }
    var k :| 0 <= k <= |t| && In(WORD, t[..k]) && In(Star(WORD), t[k..]);
    StarMonotone(WORD, WORD_DET, t[k..]);
  }

  lemma RunIsDeterministic(a: Class, b: Class, follow: set<Class>)
    requires a != b && a !in follow && b !in follow
    ensures var e := Star(Choice(Char(a), Char(b)));
            Deterministic(e, follow) && First(e) == {a, b} && Nullable(e)
  {
    var l, r := Char(a), Char(b);
    var c := Choice(l, r);
    assert First(l) == {a} && First(r) == {b} && {a} !! {b};
    assert First(c) == First(l) + First(r);
    assert First(l) + First(r) == {a, b};
    assert Deterministic(l, First(c) + follow) && Deterministic(r, First(c) + follow);
    assert !Nullable(l) && !Nullable(r) && Deterministic(c, First(c) + follow);
    assert {a, b} !! follow;
  }

  /** head (head | dg)* ("_" (head | dg)+)* */
  lemma SnakeIsDeterministic(head: Class)
    requires head == Lower || head == Upper
    ensures var run := Choice(Char(head), Char(Digit));
            Deterministic(Seq(Char(head), Seq(Star(run), Star(Seq(Char(Underscore), Plus(run))))), {Comma})
  {
    var run := Choice(Char(head), Char(Digit));
    var part := Seq(Char(Underscore), Plus(run));
    RunIsDeterministic(head, Digit, {Underscore, Comma});
    assert First(part) == {Underscore} && !Nullable(part);
    assert {Underscore} + {Comma} == {Underscore, Comma};
    assert First(Star(run)) + {Underscore, Comma} == {head, Digit, Underscore, Comma};
    assert Deterministic(run, {head, Digit, Underscore, Comma});
    assert Deterministic(Plus(run), {Underscore, Comma});
    assert Deterministic(part, {Underscore, Comma});
    assert Deterministic(Star(part), {Comma}) && First(Star(part)) == {Underscore} && Nullable(Star(part));
    assert Deterministic(Seq(Star(run), Star(part)), {Comma});
  }

  lemma CamelIsDeterministic()
    ensures Deterministic(Plus(WORD_DET), {Comma}) && First(Plus(WORD_DET)) == {Upper} && !Nullable(Plus(WORD_DET))
    ensures Deterministic(Seq(LO, Seq(Star(LO_DG), Plus(WORD_DET))), {Comma})
  {
    var follow := {Upper, Comma};
    RunIsDeterministic(Lower, Digit, follow);
    assert Deterministic(TAIL_DET, follow) && First(TAIL_DET) == {Lower} && !Nullable(TAIL_DET);
    assert Deterministic(DG, {Digit} + {Lower}) && Deterministic(Star(DG), {Lower});
    assert Deterministic(Seq(Star(DG), TAIL_DET), follow);
    assert Deterministic(WORD_DET, follow) && First(WORD_DET) == {Upper} && !Nullable(WORD_DET);
    assert First(WORD_DET) + {Comma} == follow;
    assert Deterministic(Star(WORD_DET), {Comma});
    RunIsDeterministic(Lower, Digit, {Upper});
    assert Deterministic(Seq(Star(LO_DG), Plus(WORD_DET)), {Comma});
  }

  /** Every word of a rule's language is matched to its end, when a comma or
      the end of input follows. */
  lemma RuleIsComplete(r: Rule, t: string, rest: string)
    requires In(Body(r), t) && Follows({Comma}, rest)
    ensures Match(Body(r), t + rest) == Some(|t|)
  {
    match r
    case CamelCase =>
      CamelCaseIncluded(t);
      CamelCaseMatches(t + rest);
      CamelIsDeterministic();
      MatchIsComplete(Plus(WORD_DET), {Comma}, t, rest);
    case CamelBack =>
      CamelBackIncluded(t);
      CamelBackMatches(t + rest);
      CamelIsDeterministic();
      MatchIsComplete(CAMEL_BACK_DET, {Comma}, t, rest);
    case LowerSnake => SnakeIsDeterministic(Lower); MatchIsComplete(LOWER_SNAKE, {Comma}, t, rest);
    case UpperSnake => SnakeIsDeterministic(Upper); MatchIsComplete(UPPER_SNAKE, {Comma}, t, rest);
  }

  const CAMEL_BACK_DET := Seq(LO, Seq(Star(LO_DG), Plus(WORD_DET)))

  lemma CamelBackMatches(s: string)
    ensures Match(CAMEL_BACK, s) == Match(CAMEL_BACK_DET, s)
  {
    hide Match;
    var e, det := Seq(Star(LO_DG), CAMEL_CASE), Seq(Star(LO_DG), Plus(WORD_DET));
    SeqUnfold(CAMEL_BACK, s);
    SeqUnfold(CAMEL_BACK_DET, s);
    if Match(LO, s).Some? {
      var u := s[Match(LO, s).value..];
      SeqUnfold(e, u);
      SeqUnfold(det, u);
      if Match(Star(LO_DG), u).Some? { CamelCaseMatches(u[Match(Star(LO_DG), u).value..]); }
    }
  }

  lemma CamelBackIncluded(t: string)
    requires In(CAMEL_BACK, t)
    ensures In(CAMEL_BACK_DET, t)
  {
    hide In;
    var e, det := Seq(Star(LO_DG), CAMEL_CASE), Seq(Star(LO_DG), Plus(WORD_DET));
    forall u | In(CAMEL_CASE, u)
      ensures In(Plus(WORD_DET), u)
    {
      CamelCaseIncluded(u);
    }
    forall u | In(e, u)
      ensures In(det, u)
    {
      InSeqMonotone(Star(LO_DG), CAMEL_CASE, Plus(WORD_DET), u);
    }
    InSeqMonotone(LO, e, det, t);
  }

  // ----- What tells the styles apart -------------------------------------

  predicate Has(t: string, cls: Class) {
    exists i :: 0 <= i < |t| && ClassOf(t[i]) == cls
  }

  lemma HasWithin(t: string, j: nat, k: nat, cls: Class)
    requires j <= k <= |t| && Has(t[j..k], cls)
    ensures Has(t, cls)
  {
    var i :| 0 <= i < |t[j..k]| && ClassOf(t[j..k][i]) == cls;
    assert ClassOf(t[j + i]) == cls;
  }

  lemma SecondHas(a: Expr, b: Expr, t: string, cls: Class)
    requires In(Seq(a, b), t) && forall u :: In(b, u) ==> Has(u, cls)
    ensures Has(t, cls)
  {
    var k :| 0 <= k <= |t| && In(a, t[..k]) && In(b, t[k..]);
    hide In, Has;
    assert t[k..] == t[k..|t|];
    HasWithin(t, k, |t|, cls);
  }

  lemma FirstHas(a: Expr, b: Expr, t: string, cls: Class)
    requires In(Seq(a, b), t) && forall u :: In(a, u) ==> Has(u, cls)
    ensures Has(t, cls)
  {
    var k :| 0 <= k <= |t| && In(a, t[..k]) && In(b, t[k..]);
    hide In, Has;
    assert t[..k] == t[0..k];
    HasWithin(t, 0, k, cls);
  }

  lemma TailHasLower(t: string)
    requires In(TAIL, t)
    ensures Has(t, Lower)
  {
    WordBegins(TAIL, t);
    assert ClassOf(t[0]) == Lower;
  }

  lemma WordHasLower(t: string)
    requires In(WORD, t)
    ensures Has(t, Lower)
  {
    hide In, Has;
    forall u | In(TAIL, u) ensures Has(u, Lower) { TailHasLower(u); }
    forall u | In(Seq(Star(DG), TAIL), u) ensures Has(u, Lower) { SecondHas(Star(DG), TAIL, u, Lower); }
    SecondHas(UP, Seq(Star(DG), TAIL), t, Lower);
  }

  lemma CamelCaseHasLower(t: string)
    requires In(CAMEL_CASE, t)
    ensures t != [] && ClassOf(t[0]) == Upper && Has(t, Lower)
  {
    hide In, Has;
    WordBegins(CAMEL_CASE, t);
    forall u | In(WORD, u) ensures Has(u, Lower) { WordHasLower(u); }
    FirstHas(WORD, Star(WORD), t, Lower);
  }

  lemma CamelCaseHasUpper(t: string)
    requires In(CAMEL_CASE, t)
    ensures Has(t, Upper)
  {
    CamelCaseHasLower(t);
    assert ClassOf(t[0]) == Upper;
  }

  lemma CamelBackHasUpper(t: string)
    requires In(CAMEL_BACK, t)
    ensures t != [] && ClassOf(t[0]) == Lower && Has(t, Upper)
  {
    hide In, Has;
    WordBegins(CAMEL_BACK, t);
    forall u | In(CAMEL_CASE, u) ensures Has(u, Upper) { CamelCaseHasUpper(u); }
    forall u | In(Seq(Star(LO_DG), CAMEL_CASE), u)
      ensures Has(u, Upper)
    {
      SecondHas(Star(LO_DG), CAMEL_CASE, u, Upper);
    }
    SecondHas(LO, Seq(Star(LO_DG), CAMEL_CASE), t, Upper);
  }

  lemma LowerSnakeHasNoUpper(t: string)
    requires In(LOWER_SNAKE, t)
    ensures t != [] && ClassOf(t[0]) == Lower && !Has(t, Upper)
  {
    WordBegins(LOWER_SNAKE, t);
    forall i | 0 <= i < |t|
      ensures ClassOf(t[i]) != Upper
    {
      WordUsesAlphabet(LOWER_SNAKE, t, i);
    }
  }

  lemma UpperSnakeHasNoLower(t: string)
    requires In(UPPER_SNAKE, t)
    ensures t != [] && ClassOf(t[0]) == Upper && !Has(t, Lower)
  {
    WordBegins(UPPER_SNAKE, t);
    forall i | 0 <= i < |t|
      ensures ClassOf(t[i]) != Lower
    {
      WordUsesAlphabet(UPPER_SNAKE, t, i);
    }
  }

  lemma NoCommaInWords(r: Rule, t: string)
    requires In(Body(r), t)
    ensures !Has(t, Comma) && t != []
  {
    forall i | 0 <= i < |t|
      ensures ClassOf(t[i]) != Comma
    {
      WordUsesAlphabet(Body(r), t, i);
    }
    WordBegins(Body(r), t);
  }

  lemma NoCommaInMatch(r: Rule, s: string, k: nat)
    requires k <= |s| && In(Body(r), s[..k])
    ensures k > 0 && forall i :: 0 <= i < k ==> ClassOf(s[i]) != Comma
  {
    NoCommaInWords(r, s[..k]);
    forall i | 0 <= i < k
      ensures ClassOf(s[i]) != Comma
    {
      assert ClassOf(s[..k][i]) == ClassOf(s[i]);
    }
  }

  /** A match that starts at a piece of a list ends inside the piece. */
  lemma MatchEndsInPiece(r: Rule, p: string, rest: string, k: nat)
    requires (rest == [] || ClassOf(rest[0]) == Comma) && k <= |p + rest| && In(Body(r), (p + rest)[..k])
    ensures k <= |p| && In(Body(r), p[..k])
  {
    NoCommaInMatch(r, p + rest, k);
    assert rest != [] ==> ClassOf((p + rest)[|p|]) == Comma;
    assert k <= |p|;
    assert (p + rest)[..k] == p[..k];
  }

  /** The position of a rule in the order of alternatives. */
  function Rank(r: Rule): nat {
    match r
    case CamelCase => 0
    case CamelBack => 1
    case LowerSnake => 2
    case UpperSnake => 3
  }

  /** Committing is safe in this order: no prefix of a word of one rule is a
      word of a rule tried before it. */
  lemma EarlierRuleHasNoPrefix(q: Rule, r: Rule, t: string, k: nat)
    requires Rank(q) < Rank(r) && In(Body(r), t) && k <= |t|
    ensures !In(Body(q), t[..k])
  {
    assert forall i :: 0 <= i < k ==> t[..k][i] == t[i];
    if In(Body(q), t[..k]) {
      match r {
        case CamelCase =>
        case CamelBack => CamelBackHasUpper(t);
        case LowerSnake => LowerSnakeHasNoUpper(t);
        case UpperSnake => UpperSnakeHasNoLower(t);
      }
      match q {
        case CamelCase => CamelCaseHasLower(t[..k]);
        case CamelBack => CamelBackHasUpper(t[..k]);
        case LowerSnake => LowerSnakeHasNoUpper(t[..k]);
        case UpperSnake =>
      }
    }
  }

  /** The four languages are pairwise disjoint. */
  lemma RulesAreDisjoint(q: Rule, r: Rule, t: string)
    requires In(Body(q), t) && In(Body(r), t)
    ensures q == r
  {
    assert t[..|t|] == t;
    if Rank(q) < Rank(r) {
      EarlierRuleHasNoPrefix(q, r, t, |t|);
    } else if Rank(r) < Rank(q) {
      EarlierRuleHasNoPrefix(r, q, t, |t|);
    }
  }

  // ----- term -------------------------------------------------------------

  /** A word followed by a comma or the end of input is recognised as what it is. */
  lemma WordIsRecognised(r: Rule, t: string, rest: string)
    requires In(Body(r), t) && Follows({Comma}, rest)
    ensures SingleTerm(t + rest) == Some((r, |t|))
  {
    RuleIsComplete(r, t, rest);
    forall q: Rule | Rank(q) < Rank(r)
      ensures Match(Body(q), t + rest) == None
    {
      MatchIsSound(Body(q), t + rest);
      if Match(Body(q), t + rest).Some? {
        var k := Match(Body(q), t + rest).value;
        MatchEndsInPiece(q, t, rest, k);
        EarlierRuleHasNoPrefix(q, r, t, k);
      }
    }
    FirstOfOrder(r, t + rest);
  }

  lemma FirstOfOrder(r: Rule, s: string)
    requires forall q: Rule :: Rank(q) < Rank(r) ==> Match(Body(q), s) == None
    requires Match(Body(r), s).Some?
    ensures SingleTerm(s) == Some((r, Match(Body(r), s).value))
  {
    hide Body, Match;
    var o1, o2, o3 := ORDER[1..], ORDER[1..][1..], ORDER[1..][1..][1..];
    assert o1 == [CamelBack, LowerSnake, UpperSnake] && o2 == [LowerSnake, UpperSnake] && o3 == [UpperSnake];
    assert Rank(CamelCase) == 0 && Rank(CamelBack) == 1 && Rank(LowerSnake) == 2 && Rank(UpperSnake) == 3;
    if r != CamelCase { assert FirstOf(ORDER, s) == FirstOf(o1, s); }
    if r != CamelCase && r != CamelBack { assert FirstOf(o1, s) == FirstOf(o2, s); }
    if r == UpperSnake { assert FirstOf(o2, s) == FirstOf(o3, s); }
  }

  /** PEG equals regular languages: `term` accepts a string with rule r exactly
      when the whole string is in r's regular language. */
  lemma TermIsRegular(s: string, r: Rule)
    ensures Term(s) == Some(r) <==> In(Body(r), s)
  {
    if In(Body(r), s) {
      WordIsRecognised(r, s, []);
      assert s + [] == s;
    }
    if Term(s) == Some(r) {
      MatchIsSound(Body(r), s);
      assert s[..|s|] == s;
    }
  }

  /** The order matters: with lower_snake before camel_back, every single
      camel_back identifier is rejected. */
  lemma LowerSnakeFirstBreaksCamelBack(t: string)
    requires In(CAMEL_BACK, t)
    ensures TermInOrder([CamelCase, LowerSnake, CamelBack, UpperSnake], t) == None
  {
    CamelBackHasUpper(t);
    NoMatch(CAMEL_CASE, t);
    assert Match(LO, t) == Some(1);
    assert Match(LOWER_SNAKE, t).Some?;
    var k := Match(LOWER_SNAKE, t).value;
    MatchIsSound(LOWER_SNAKE, t);
    LowerSnakeHasNoUpper(t[..k]);
    assert t[..|t|] == t;
    var rules := [CamelCase, LowerSnake, CamelBack, UpperSnake];
    assert rules[1..][0] == LowerSnake;
    assert FirstOf(rules, t) == FirstOf(rules[1..], t) == Some((LowerSnake, k));
  }

  // ----- terms ------------------------------------------------------------

  /** ("," ~ single_term)*: the rules recognised, and what is left. */
  function MoreTerms(s: string): (seq<Rule>, string)
    decreases |s|
  {
    if s != [] && s[0] == ',' && SingleTerm(s[1..]).Some? then
      var (r, k) := SingleTerm(s[1..]).value;
      var (rules, rest) := MoreTerms(s[1..][k..]);
      ([r] + rules, rest)
    else ([], s)
  }

  /** SOI ~ single_term ~ ("," ~ single_term)* ~ EOI */
  function Terms(s: string): Option<seq<Rule>> {
    match SingleTerm(s)
    case None => None
    case Some((r, k)) =>
      var (rules, rest) := MoreTerms(s[k..]);
      if rest == [] then Some([r] + rules) else None
  }

  function CommaAt(s: string): (i: nat)
    ensures i <= |s| && (i < |s| ==> s[i] == ',') && forall j :: 0 <= j < i ==> s[j] != ','
  {
    if s == [] || s[0] == ',' then 0 else 1 + CommaAt(s[1..])
  }

  /** The pieces between the commas. */
  function Split(s: string): seq<string>
    decreases |s|
  {
    var i := CommaAt(s);
    if i == |s| then [s] else [s[..i]] + Split(s[i + 1..])
  }

  function Join(pieces: seq<string>): string
    requires pieces != []
  {
    if |pieces| == 1 then pieces[0] else pieces[0] + "," + Join(pieces[1..])
  }

  /** Every piece classified on its own. */
  function TermsOf(pieces: seq<string>): Option<seq<Rule>> {
    if pieces == [] then Some([])
    else
      match (Term(pieces[0]), TermsOf(pieces[1..]))
      case (Some(r), Some(rules)) => Some([r] + rules)
      case _ => None
  }

  /** At the start of a piece: recognised in full, or stuck inside the piece. */
  lemma PieceOfList(p: string, rest: string)
    requires CommaAt(p) == |p| && (rest == [] || rest[0] == ',')
    ensures match Term(p)
            case Some(r) => SingleTerm(p + rest) == Some((r, |p|))
            case None => SingleTerm(p + rest).Some? ==> SingleTerm(p + rest).value.1 < |p|
  {
    if Term(p).Some? {
      TermIsRegular(p, Term(p).value);
      WordIsRecognised(Term(p).value, p, rest);
    } else if SingleTerm(p + rest).Some? {
      var (q, k) := SingleTerm(p + rest).value;
      MatchIsSound(Body(q), p + rest);
      MatchEndsInPiece(q, p, rest, k);
      assert p[..|p|] == p;
      TermIsRegular(p, q);
    }
  }

  lemma {:induction false} MoreTermsBySplit(s: string)
    requires s == [] || s[0] == ','
    ensures var (rules, rest) := MoreTerms(s);
            var expected := if s == [] then Some([]) else TermsOf(Split(s[1..]));
            if expected.Some? then rest == [] && rules == expected.value else rest != []
    decreases |s|
  {
    if s != [] {
      var u := s[1..];
      var i := CommaAt(u);
      var p, tail := u[..i], u[i..];
      assert u == p + tail;
      NoCommaBefore(u);
      PieceOfList(p, tail);
      MoreTermsBySplit(tail);
      SplitUnfold(u);
      if Term(p) == None && SingleTerm(u).Some? {
        var k := SingleTerm(u).value.1;
        assert u[k..][0] == p[k] != ',';
      }
    }
  }

  lemma NoCommaBefore(u: string)
    ensures CommaAt(u[..CommaAt(u)]) == CommaAt(u)
  {
  }

  lemma SplitUnfold(u: string)
    ensures var i := CommaAt(u);
            TermsOf(Split(u)) ==
              match (Term(u[..i]), if i == |u| then Some([]) else TermsOf(Split(u[i..][1..])))
              case (Some(r), Some(rules)) => Some([r] + rules)
              case _ => None
  {
    var i := CommaAt(u);
    if i == |u| {
      assert u[..i] == u;
      assert Split(u)[1..] == [];
    } else {
      assert u[i..][1..] == u[i + 1..];
      assert Split(u)[1..] == Split(u[i + 1..]);
    }
  }

  /** List parsing: `terms` succeeds exactly when every comma-separated piece is
      accepted by `term`, and gives the pieces' classifications in order. */
  lemma TermsBySplit(s: string)
    ensures Terms(s) == TermsOf(Split(s))
  {
    var i := CommaAt(s);
    var p, tail := s[..i], s[i..];
    assert s == p + tail;
    NoCommaBefore(s);
    PieceOfList(p, tail);
    MoreTermsBySplit(tail);
    SplitUnfold(s);
    if Term(p) == None && SingleTerm(s).Some? {
      var k := SingleTerm(s).value.1;
      assert s[k..][0] == p[k] != ',';
    }
  }

  lemma SplitFirst(p: string, rest: string)
    requires CommaAt(p) == |p|
    ensures Split(p + "," + rest) == [p] + Split(rest)
  {
    var s := p + "," + rest;
    var n := |p|;
    assert s[n] == ',' && forall j :: 0 <= j < n ==> s[j] == p[j];
    assert CommaAt(s) == n;
    assert s[..n] == p && s[n + 1..] == rest;
  }

  lemma {:induction false} SplitJoin(pieces: seq<string>)
    requires pieces != [] && forall p :: p in pieces ==> CommaAt(p) == |p|
    ensures Split(Join(pieces)) == pieces
    decreases |pieces|
  {
    if |pieces| > 1 {
      SplitJoin(pieces[1..]);
      SplitFirst(pieces[0], Join(pieces[1..]));
      assert pieces == [pieces[0]] + pieces[1..];
    }
  }

  lemma JoinFirst(p: string, pieces: seq<string>)
    requires pieces != []
    ensures Join([p] + pieces) == p + "," + Join(pieces)
  {
    assert ([p] + pieces)[1..] == pieces;
  }

  lemma JoinOne(s: string)
    ensures Join([s]) == s
  {
  }

  lemma SplitStep(s: string)
    ensures var i := CommaAt(s);
            Split(s) == if i == |s| then [s] else [s[..i]] + Split(s[i + 1..])
  {
    hide CommaAt;
  }

  lemma CutAt(s: string, i: nat)
    requires i < |s| && s[i] == ','
    ensures s == s[..i] + "," + s[i + 1..]
  {
  }

  lemma {:induction false} JoinSplit(s: string)
    ensures Split(s) != [] && Join(Split(s)) == s
    decreases |s|
  {
    hide Split, Join;
    SplitStep(s);
    var i := CommaAt(s);
    if i == |s| {
      JoinOne(s);
    } else {
      CutAt(s, i);
      JoinSplit(s[i + 1..]);
      JoinFirst(s[..i], Split(s[i + 1..]));
    }
  }

  lemma NoCommaInTerm(p: string, r: Rule)
    requires Term(p) == Some(r)
    ensures CommaAt(p) == |p|
  {
    TermIsRegular(p, r);
    hide Term, In, Body, CommaAt;
    assert p[..|p|] == p;
    NoCommaInMatch(r, p, |p|);
  }

  /** Round trip: joining identifiers with commas and parsing the result gives
      back their classifications, one for one. */
  lemma JoinedTermsParseBack(pieces: seq<string>, rules: seq<Rule>)
    requires pieces != [] && |pieces| == |rules|
    requires forall i :: 0 <= i < |pieces| ==> Term(pieces[i]) == Some(rules[i])
    ensures Terms(Join(pieces)) == Some(rules)
  {
    hide Term, Terms, Join, Split, TermsOf;
    forall p | p in pieces
      ensures CommaAt(p) == |p|
    {
      var i :| 0 <= i < |pieces| && pieces[i] == p;
      NoCommaInTerm(p, rules[i]);
    }
    SplitJoin(pieces);
    TermsBySplit(Join(pieces));
    TermsOfAll(pieces, rules);
  }

  lemma {:induction false} TermsOfAll(pieces: seq<string>, rules: seq<Rule>)
    requires |pieces| == |rules|
    requires forall i :: 0 <= i < |pieces| ==> Term(pieces[i]) == Some(rules[i])
    ensures TermsOf(pieces) == Some(rules)
    decreases |pieces|
  {
    if pieces != [] {
      TermsOfAll(pieces[1..], rules[1..]);
      assert rules == [rules[0]] + rules[1..];
    }
  }
}
