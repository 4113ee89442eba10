/** Parsing expressions with two meanings: the committed, greedy matcher of a
    PEG, and the regular language of the same expression. A syntactic
    determinism check, with one class of lookahead, makes the two agree. */
module Peg {

  datatype Option<T> = None | Some(value: T)

  /** Characters as the grammar tells them apart. */
  datatype Class = Lower | Upper | Digit | Underscore | Comma | Other

  function ClassOf(c: char): Class {
    if 'a' <= c <= 'z' then Lower
    else if 'A' <= c <= 'Z' then Upper
    else if '0' <= c <= '9' then Digit
    else if c == '_' then Underscore
    else if c == ',' then Comma
    else Other
  }

  datatype Expr =
    | Char(cls: Class)
    | Seq(first: Expr, second: Expr)
    | Choice(left: Expr, right: Expr)
    | Star(body: Expr)

  /** e+ is e followed by e*. */
  function Plus(e: Expr): Expr {
    Seq(e, Star(e))
  }

  /** How much of the beginning of s the expression consumes, if it matches.
      A choice commits to its first matching alternative, a repetition takes
      all it can get, and neither is reconsidered. */
  function Match(e: Expr, s: string): (r: Option<nat>)
    ensures r.Some? ==> r.value <= |s|
    ensures e.Star? ==> r.Some?
    decreases e, |s|
  {
    match e
    case Char(cls) => if s != [] && ClassOf(s[0]) == cls then Some(1) else None
    case Seq(a, b) =>
      var m := Match(a, s);
      if m.None? then None
      else
        var n := Match(b, s[m.value..]);
        if n.None? then None else Some(m.value + n.value)
    case Choice(a, b) =>
      var m := Match(a, s);
      if m.Some? then m else Match(b, s)
    case Star(a) =>
      var m := Match(a, s);
      if m.None? || m.value == 0 then Some(0)
      else Some(m.value + Match(e, s[m.value..]).value)
  }

  /** The regular language of the expression. */
  ghost predicate In(e: Expr, t: string)
    decreases e, |t|
  {
    match e
    case Char(cls) => |t| == 1 && ClassOf(t[0]) == cls
    case Seq(a, b) => exists k :: 0 <= k <= |t| && In(a, t[..k]) && In(b, t[k..])
    case Choice(a, b) => In(a, t) || In(b, t)
    case Star(a) => t == [] || exists k :: 0 < k <= |t| && In(a, t[..k]) && In(e, t[k..])
  }

  lemma InSeq(a: Expr, b: Expr, u: string, v: string)
    requires In(a, u) && In(b, v)
    ensures In(Seq(a, b), u + v)
  {
    var t := u + v;
    assert t[..|u|] == u && t[|u|..] == v;
  }

  lemma InStar(a: Expr, u: string, v: string)
    requires u != [] && In(a, u) && In(Star(a), v)
    ensures In(Star(a), u + v)
  {
    var t := u + v;
    assert t[..|u|] == u && t[|u|..] == v;
  }

  /** The language only grows when the second part does. */
  lemma InSeqMonotone(a: Expr, b: Expr, b': Expr, t: string)
    requires In(Seq(a, b), t) && forall u :: In(b, u) ==> In(b', u)
    ensures In(Seq(a, b'), t)
  {
    var k :| 0 <= k <= |t| && In(a, t[..k]) && In(b, t[k..]);
    assert In(b', t[k..]);
  }

  lemma SeqUnfold(e: Expr, s: string)
    requires e.Seq?
    ensures var m := Match(e.first, s);
            Match(e, s) ==
              if m.None? then None
              else var n := Match(e.second, s[m.value..]); if n.None? then None else Some(m.value + n.value)
  {
  }

  lemma StarUnfold(e: Expr, s: string)
    requires e.Star?
    ensures var m := Match(e.body, s);
            Match(e, s) ==
              if m.None? || m.value == 0 then Some(0) else Some(m.value + Match(e, s[m.value..]).value)
  {
  }

  ghost predicate SoundAt(e: Expr, s: string) {
    Match(e, s).Some? ==> In(e, s[..Match(e, s).value])
  }

  lemma SeqIsSound(e: Expr, s: string)
    requires e.Seq? && SoundAt(e.first, s)
    requires Match(e.first, s).Some? ==> SoundAt(e.second, s[Match(e.first, s).value..])
    ensures SoundAt(e, s)
  {
    hide Match, In;
    SeqUnfold(e, s);
    if Match(e, s).Some? {
      var k := Match(e.first, s).value;
      var j := Match(e.second, s[k..]).value;
      InSeq(e.first, e.second, s[..k], s[k..][..j]);
      assert s[..k + j] == s[..k] + s[k..][..j];
    }
  }

  lemma StarIsSound(e: Expr, s: string)
    requires e.Star? && SoundAt(e.body, s)
    requires Match(e.body, s).Some? && Match(e.body, s).value > 0 ==> SoundAt(e, s[Match(e.body, s).value..])
    ensures SoundAt(e, s)
  {
    StarUnfold(e, s);
    if Match(e.body, s).Some? && Match(e.body, s).value > 0 {
      hide Match, In;
      var k := Match(e.body, s).value;
      var j := Match(e, s[k..]).value;
      InStar(e.body, s[..k], s[k..][..j]);
      assert s[..k + j] == s[..k] + s[k..][..j];
    }
  }

  /** Whatever is matched is in the language. */
  lemma {:induction false} MatchIsSound(e: Expr, s: string)
    ensures Match(e, s).Some? ==> In(e, s[..Match(e, s).value])
    decreases e, |s|
  {
    match e
    case Char(_) =>
    case Seq(a, b) =>
      hide Match, In;
      MatchIsSound(a, s);
      if Match(a, s).Some? { MatchIsSound(b, s[Match(a, s).value..]); }
      SeqIsSound(e, s);
    case Choice(a, b) => MatchIsSound(a, s); MatchIsSound(b, s);
    case Star(a) =>
      hide Match, In;
      MatchIsSound(a, s);
      if Match(a, s).Some? && Match(a, s).value > 0 { MatchIsSound(e, s[Match(a, s).value..]); }
      StarIsSound(e, s);
  }

  predicate Nullable(e: Expr) {
    match e
    case Char(_) => false
    case Seq(a, b) => Nullable(a) && Nullable(b)
    case Choice(a, b) => Nullable(a) || Nullable(b)
    case Star(_) => true
  }

  /** The classes a word of the language can begin with. */
  function First(e: Expr): set<Class> {
    match e
    case Char(cls) => {cls}
    case Seq(a, b) => First(a) + (if Nullable(a) then First(b) else {})
    case Choice(a, b) => First(a) + First(b)
    case Star(a) => First(a)
  }

  /** The classes that occur in words of the language. */
  function Alphabet(e: Expr): set<Class> {
    match e
    case Char(cls) => {cls}
    case Seq(a, b) => Alphabet(a) + Alphabet(b)
    case Choice(a, b) => Alphabet(a) + Alphabet(b)
    case Star(a) => Alphabet(a)
  }

  lemma {:induction false} WordBegins(e: Expr, t: string)
    requires In(e, t)
    ensures if t == [] then Nullable(e) else ClassOf(t[0]) in First(e)
    decreases e, |t|
  {
    match e
    case Char(_) =>
    case Seq(a, b) =>
      var k :| 0 <= k <= |t| && In(a, t[..k]) && In(b, t[k..]);
      WordBegins(a, t[..k]);
      WordBegins(b, t[k..]);
    case Choice(a, b) => if In(a, t) { WordBegins(a, t); } else { WordBegins(b, t); }
    case Star(a) =>
      if t != [] {
        var k :| 0 < k <= |t| && In(a, t[..k]) && In(e, t[k..]);
        WordBegins(a, t[..k]);
      }
  }

  lemma {:induction false} WordUsesAlphabet(e: Expr, t: string, i: nat)
    requires In(e, t) && i < |t|
    ensures ClassOf(t[i]) in Alphabet(e)
    decreases e, |t|
  {
    match e
    case Char(_) =>
    case Seq(a, b) =>
      var k :| 0 <= k <= |t| && In(a, t[..k]) && In(b, t[k..]);
      if i < k { WordUsesAlphabet(a, t[..k], i); } else { WordUsesAlphabet(b, t[k..], i - k); }
    case Choice(a, b) => if In(a, t) { WordUsesAlphabet(a, t, i); } else { WordUsesAlphabet(b, t, i); }
    case Star(a) =>
      var k :| 0 < k <= |t| && In(a, t[..k]) && In(e, t[k..]);
      if i < k { WordUsesAlphabet(a, t[..k], i); } else { WordUsesAlphabet(e, t[k..], i - k); }
  }

  lemma NoMatch(e: Expr, s: string)
    requires !Nullable(e) && (s == [] || ClassOf(s[0]) !in First(e))
    ensures Match(e, s) == None
  {
    MatchIsSound(e, s);
    if Match(e, s).Some? { WordBegins(e, s[..Match(e, s).value]); }
  }

  /** One class of lookahead decides every choice and every repetition, when
      the expression is followed by the end of input or a class in `follow`. */
  predicate Deterministic(e: Expr, follow: set<Class>) {
    match e
    case Char(_) => true
    case Seq(a, b) =>
      Deterministic(b, follow) && Deterministic(a, First(b) + (if Nullable(b) then follow else {}))
    case Choice(a, b) =>
      && Deterministic(a, follow) && Deterministic(b, follow)
      && !Nullable(a) && First(a) !! First(b) && (Nullable(b) ==> First(a) !! follow)
    case Star(a) => !Nullable(a) && First(a) !! follow && Deterministic(a, First(a) + follow)
  }

  predicate Follows(follow: set<Class>, rest: string) {
    rest == [] || ClassOf(rest[0]) in follow
  }

  lemma SeqSplit(a: Expr, b: Expr, t: string) returns (k: nat)
    requires In(Seq(a, b), t)
    ensures k <= |t| && In(a, t[..k]) && In(b, t[k..])
  {
    k :| 0 <= k <= |t| && In(a, t[..k]) && In(b, t[k..]);
  }

  lemma StarSplit(a: Expr, u: string) returns (k: nat)
    requires u != [] && In(Star(a), u)
    ensures 0 < k <= |u| && In(a, u[..k]) && In(Star(a), u[k..])
  {
    k :| 0 < k <= |u| && In(a, u[..k]) && In(Star(a), u[k..]);
  }

  lemma CharMatches(cls: Class, t: string, rest: string)
    requires In(Char(cls), t)
    ensures Match(Char(cls), t + rest) == Some(|t|)
  {
  }

  lemma ChoiceMatches(a: Expr, b: Expr, s: string)
    ensures Match(Choice(a, b), s) == if Match(a, s).Some? then Match(a, s) else Match(b, s)
  {
  }

  lemma SeqMatches(a: Expr, b: Expr, u: string, v: string, rest: string)
    requires Match(a, u + (v + rest)) == Some(|u|) && Match(b, v + rest) == Some(|v|)
    ensures Match(Seq(a, b), u + v + rest) == Some(|u + v|)
  {
    hide Match;
    var s := u + v + rest;
    SeqUnfold(Seq(a, b), s);
    assert s == u + (v + rest);
    assert s[|u|..] == v + rest;
  }

  lemma StarMatches(a: Expr, u: string, v: string, rest: string)
    requires u != [] && Match(a, u + (v + rest)) == Some(|u|) && Match(Star(a), v + rest) == Some(|v|)
    ensures Match(Star(a), u + v + rest) == Some(|u + v|)
  {
    hide Match;
    var s := u + v + rest;
    StarUnfold(Star(a), s);
    assert s == u + (v + rest);
    assert s[|u|..] == v + rest;
  }

  /** One step of the lookahead condition, and of what may follow. */
  lemma SeqDeterministic(a: Expr, b: Expr, follow: set<Class>)
    requires Deterministic(Seq(a, b), follow)
    ensures Deterministic(b, follow) && Deterministic(a, SeqFollow(b, follow))
  {
  }

  lemma StarDeterministic(a: Expr, follow: set<Class>)
    requires Deterministic(Star(a), follow)
    ensures !Nullable(a) && First(a) !! follow && Deterministic(a, First(a) + follow)
  {
  }

  /** What may follow the first part of a sequence. */
  function SeqFollow(b: Expr, follow: set<Class>): set<Class> {
    First(b) + (if Nullable(b) then follow else {})
  }

  lemma FollowsSeq(b: Expr, v: string, follow: set<Class>, rest: string)
    requires In(b, v) && Follows(follow, rest)
    ensures Follows(SeqFollow(b, follow), v + rest)
  {
    WordBegins(b, v);
    hide In, First, Nullable;
    if v == [] { assert v + rest == rest; } else { assert (v + rest)[0] == v[0]; }
  }

  lemma FollowsStar(a: Expr, v: string, follow: set<Class>, rest: string)
    requires In(Star(a), v) && Follows(follow, rest)
    ensures Follows(First(a) + follow, v + rest)
  {
    WordBegins(Star(a), v);
    assert First(Star(a)) == First(a);
    hide In, First, Nullable;
    if v == [] { assert v + rest == rest; } else { assert (v + rest)[0] == v[0]; }
  }

  lemma StarStops(a: Expr, follow: set<Class>, rest: string)
    requires Deterministic(Star(a), follow) && Follows(follow, rest)
    ensures Match(Star(a), rest) == Some(0)
  {
    StarDeterministic(a, follow);
    hide Match, First, Nullable, Deterministic;
    NoMatch(a, rest);
    StarUnfold(Star(a), rest);
  }

  lemma ChoiceCases(a: Expr, b: Expr, follow: set<Class>, t: string)
    requires Deterministic(Choice(a, b), follow) && In(Choice(a, b), t)
    ensures Deterministic(a, follow) && Deterministic(b, follow) && (In(a, t) || In(b, t))
  {
  }

  /** No word of the right alternative lets the left one match first. */
  lemma LeftFails(a: Expr, b: Expr, follow: set<Class>, t: string, rest: string)
    requires Deterministic(Choice(a, b), follow) && In(b, t) && Follows(follow, rest)
    ensures Match(a, t + rest) == None
  {
    WordBegins(b, t);
    hide In, Match;
    assert !Nullable(a) && First(a) !! First(b) && (Nullable(b) ==> First(a) !! follow);
    hide Deterministic, First, Nullable;
    if t == [] { assert t + rest == rest; } else { assert (t + rest)[0] == t[0]; }
    NoMatch(a, t + rest);
  }

  /** For a deterministic expression, greedy committed matching loses nothing:
      every word of the language is matched, and matched to its end. */
  lemma {:induction false} MatchIsComplete(e: Expr, follow: set<Class>, t: string, rest: string)
    requires Deterministic(e, follow) && In(e, t) && Follows(follow, rest)
    ensures Match(e, t + rest) == Some(|t|)
    decreases e, |t|
  {
    hide Match, In, Deterministic, First, Nullable, SeqFollow, Follows;
    match e
    case Char(cls) => CharMatches(cls, t, rest);
    case Seq(a, b) =>
      var k := SeqSplit(a, b, t);
      var u, v := t[..k], t[k..];
      assert t == u + v;
      SeqDeterministic(a, b, follow);
      FollowsSeq(b, v, follow, rest);
      MatchIsComplete(a, SeqFollow(b, follow), u, v + rest);
      MatchIsComplete(b, follow, v, rest);
      SeqMatches(a, b, u, v, rest);
    case Choice(a, b) =>
      ChoiceCases(a, b, follow, t);
      ChoiceMatches(a, b, t + rest);
      if In(a, t) {
        MatchIsComplete(a, follow, t, rest);
      } else {
        LeftFails(a, b, follow, t, rest);
        MatchIsComplete(b, follow, t, rest);
      }
    case Star(a) =>
      if t == [] {
        assert t + rest == rest;
        StarStops(a, follow, rest);
      } else {
        var k := StarSplit(a, t);
        var u, v := t[..k], t[k..];
        assert t == u + v;
        StarDeterministic(a, follow);
        FollowsStar(a, v, follow, rest);
        MatchIsComplete(a, First(a) + follow, u, v + rest);
        MatchIsComplete(e, follow, v, rest);
        StarMatches(a, u, v, rest);
      }
  }

  lemma {:induction false} StarConcat(a: Expr, u: string, v: string)
    requires In(Star(a), u) && In(Star(a), v)
    ensures In(Star(a), u + v)
    decreases |u|
  {
    hide In;
    if u == [] {
      assert u + v == v;
    } else {
      var k := StarSplit(a, u);
      StarConcat(a, u[k..], v);
      InStar(a, u[..k], u[k..] + v);
      assert u + v == u[..k] + (u[k..] + v);
    }
  }

  lemma {:induction false} StarMonotone(a: Expr, b: Expr, t: string)
    requires In(Star(a), t) && forall u :: In(a, u) ==> In(b, u)
    ensures In(Star(b), t)
    decreases |t|
  {
    if t != [] {
      var k :| 0 < k <= |t| && In(a, t[..k]) && In(Star(a), t[k..]);
      StarMonotone(a, b, t[k..]);
    }
  }

  lemma {:induction false} StarMatchCongruence(a: Expr, b: Expr, s: string)
    requires forall u :: Match(a, u) == Match(b, u)
    ensures Match(Star(a), s) == Match(Star(b), s)
    decreases |s|
  {
    hide Match;
    StarUnfold(Star(a), s);
    StarUnfold(Star(b), s);
    assert Match(a, s) == Match(b, s);
    if Match(a, s).Some? && Match(a, s).value > 0 { StarMatchCongruence(a, b, s[Match(a, s).value..]); }
  }
}
