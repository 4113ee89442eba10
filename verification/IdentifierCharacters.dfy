/** What the four rules accept, in characters: independent of the grammar's
    expressions and of the character classes they are built from. */
module IdentifierCharacters {
  import opened Peg
  import opened Identifiers

  predicate AllIn(t: string, cls: set<Class>) {
    forall i :: 0 <= i < |t| ==> ClassOf(t[i]) in cls
  }

  /** The expression is one character of these classes. */
  ghost predicate OneOf(e: Expr, cls: set<Class>) {
    forall u: string :: In(e, u) <==> |u| == 1 && ClassOf(u[0]) in cls
  }

  lemma CharIsOneOf(c: Class)
    ensures OneOf(Char(c), {c})
  {
  }

  lemma ChoiceIsOneOf(a: Class, b: Class)
    ensures OneOf(Choice(Char(a), Char(b)), {a, b})
  {
  }

  lemma OneCharacter(e: Expr, cls: set<Class>, u: string)
    requires OneOf(e, cls)
    ensures In(e, u) <==> |u| == 1 && ClassOf(u[0]) in cls
  {
  }

  lemma {:induction false} StarOfOne(e: Expr, cls: set<Class>, t: string)
    requires OneOf(e, cls)
    ensures In(Star(e), t) <==> AllIn(t, cls)
    decreases |t|
  {
    hide In, OneOf;
    if t == [] {
      NothingInStar(e);
    } else {
      StarOfOne(e, cls, t[1..]);
      assert t == t[..1] + t[1..];
      OneCharacter(e, cls, t[..1]);
      assert AllIn(t, cls) <==> ClassOf(t[0]) in cls && AllIn(t[1..], cls);
      if In(Star(e), t) {
        var k := StarSplit(e, t);
        OneCharacter(e, cls, t[..k]);
      }
      if AllIn(t, cls) { InStar(e, t[..1], t[1..]); }
    }
  }

  lemma NothingInStar(e: Expr)
    ensures In(Star(e), [])
  {
  }

  lemma PlusOfOne(e: Expr, cls: set<Class>, t: string)
    requires OneOf(e, cls)
    ensures In(Plus(e), t) <==> t != [] && AllIn(t, cls)
  {
    OneCharacter(e, cls, []);
    hide In, OneOf;
    PlusIsStar(e, t);
    StarOfOne(e, cls, t);
  }

  /** A repetition of something that is never empty. */
  lemma PlusIsStar(e: Expr, t: string)
    requires !In(e, [])
    ensures In(Plus(e), t) <==> t != [] && In(Star(e), t)
  {
    if In(Plus(e), t) {
      var k := SeqSplit(e, Star(e), t);
      assert k > 0;
      assert t == t[..k] + t[k..];
      InStar(e, t[..k], t[k..]);
    }
    if t != [] && In(Star(e), t) {
      var k := StarSplit(e, t);
      InSeq(e, Star(e), t[..k], t[k..]);
      assert t == t[..k] + t[k..];
    }
  }

  lemma JoinAt(a: Expr, b: Expr, t: string, k: nat)
    requires k <= |t| && In(a, t[..k]) && In(b, t[k..])
    ensures In(Seq(a, b), t)
  {
    hide In;
    assert t == t[..k] + t[k..];
    InSeq(a, b, t[..k], t[k..]);
  }

  /** The first position from k on with a character of this class. */
  function Find(t: string, cls: Class, k: nat): (i: nat)
    requires k <= |t|
    ensures k <= i <= |t| && (i < |t| ==> ClassOf(t[i]) == cls)
    ensures forall j :: k <= j < i ==> ClassOf(t[j]) != cls
    decreases |t| - k
  {
    if k == |t| || ClassOf(t[k]) == cls then k else Find(t, cls, k + 1)
  }

  // ----- Snake case ---------------------------------------------------------

  /** No underscore follows another, and none is last. */
  predicate SinglyJoined(t: string) {
    && (t != [] ==> ClassOf(t[|t| - 1]) != Underscore)
    && forall i :: 0 <= i < |t| - 1 ==> ClassOf(t[i]) != Underscore || ClassOf(t[i + 1]) != Underscore
  }

  /** One or more parts, each after an underscore, or nothing. */
  predicate Tail(t: string, head: Class) {
    AllIn(t, {head, Digit, Underscore}) && SinglyJoined(t) && (t != [] ==> ClassOf(t[0]) == Underscore)
  }

  function Run(head: Class): Expr {
    Choice(Char(head), Char(Digit))
  }

  function Part(head: Class): Expr {
    Seq(Char(Underscore), Plus(Run(head)))
  }

  lemma InPart(head: Class, u: string)
    ensures In(Part(head), u) <==> |u| > 1 && ClassOf(u[0]) == Underscore && AllIn(u[1..], {head, Digit})
  {
    hide In, OneOf;
    CharIsOneOf(Underscore);
    ChoiceIsOneOf(head, Digit);
    if In(Part(head), u) {
      var k := SeqSplit(Char(Underscore), Plus(Run(head)), u);
      OneCharacter(Char(Underscore), {Underscore}, u[..k]);
      PlusOfOne(Run(head), {head, Digit}, u[1..]);
    }
    if |u| > 1 && ClassOf(u[0]) == Underscore && AllIn(u[1..], {head, Digit}) {
      OneCharacter(Char(Underscore), {Underscore}, u[..1]);
      PlusOfOne(Run(head), {head, Digit}, u[1..]);
      InSeq(Char(Underscore), Plus(Run(head)), u[..1], u[1..]);
      assert u == u[..1] + u[1..];
    }
  }

  /** Putting a part in front of a tail, and taking it off. */
  lemma TailByPart(head: Class, t: string, k: nat)
    requires head != Underscore && 1 < k <= |t|
    requires ClassOf(t[0]) == Underscore && AllIn(t[1..k], {head, Digit}) && Tail(t[k..], head)
    ensures Tail(t, head)
  {
    assert forall i :: 1 <= i < k ==> ClassOf(t[i]) == ClassOf(t[1..k][i - 1]);
    assert forall i :: k <= i < |t| ==> ClassOf(t[i]) == ClassOf(t[k..][i - k]);
    forall i | 0 <= i < |t| - 1
      ensures ClassOf(t[i]) != Underscore || ClassOf(t[i + 1]) != Underscore
    {
      if i >= k { assert t[k..][i - k] == t[i] && t[k..][i - k + 1] == t[i + 1]; }
    }
  }

  lemma TailRest(head: Class, t: string, k: nat)
    requires Tail(t, head) && k <= |t| && (k < |t| ==> ClassOf(t[k]) == Underscore)
    ensures Tail(t[k..], head)
  {
    var v := t[k..];
    assert forall i :: 0 <= i < |v| ==> v[i] == t[k + i];
    forall i | 0 <= i < |v| - 1
      ensures ClassOf(v[i]) != Underscore || ClassOf(v[i + 1]) != Underscore
    {
      assert v[i + 1] == t[(k + i) + 1];
    }
  }

  lemma {:induction false} InTail(head: Class, t: string)
    requires head != Underscore
    ensures In(Star(Part(head)), t) <==> Tail(t, head)
    decreases |t|
  {
    if t == [] { NothingInStar(Part(head)); }
    if t != [] && In(Star(Part(head)), t) {
      hide In, Tail;
      var k := StarSplit(Part(head), t);
      InPart(head, t[..k]);
      assert t[..k][1..] == t[1..k];
      InTail(head, t[k..]);
      TailByPart(head, t, k);
    }
    if t != [] && Tail(t, head) {
      hide In;
      var k := Find(t, Underscore, 1);
      assert |t| > 1 && ClassOf(t[0 + 1]) != Underscore;
      assert t[..k][1..] == t[1..k];
      InPart(head, t[..k]);
      TailRest(head, t, k);
      InTail(head, t[k..]);
      InStar(Part(head), t[..k], t[k..]);
      assert t == t[..k] + t[k..];
    }
  }

  function Snake(head: Class): Expr {
    Seq(Char(head), Seq(Star(Run(head)), Star(Part(head))))
  }

  predicate SnakeWord(s: string, head: Class) {
    s != [] && ClassOf(s[0]) == head && AllIn(s, {head, Digit, Underscore}) && SinglyJoined(s)
  }

  lemma SnakeSplits(head: Class, s: string) returns (k: nat)
    requires In(Snake(head), s)
    ensures 1 <= k <= |s| && ClassOf(s[0]) == head && In(Star(Run(head)), s[1..k]) && In(Star(Part(head)), s[k..])
  {
    hide In, OneOf;
    CharIsOneOf(head);
    var j := SeqSplit(Char(head), Seq(Star(Run(head)), Star(Part(head))), s);
    OneCharacter(Char(head), {head}, s[..j]);
    var l := SeqSplit(Star(Run(head)), Star(Part(head)), s[1..]);
    k := 1 + l;
    assert s[1..][..l] == s[1..k] && s[1..][l..] == s[k..];
  }

  lemma SnakeJoins(head: Class, s: string, k: nat)
    requires 1 <= k <= |s| && ClassOf(s[0]) == head && In(Star(Run(head)), s[1..k]) && In(Star(Part(head)), s[k..])
    ensures In(Snake(head), s)
  {
    hide In, OneOf;
    CharIsOneOf(head);
    OneCharacter(Char(head), {head}, s[..1]);
    var rest := s[1..];
    assert rest[..k - 1] == s[1..k] && rest[k - 1..] == s[k..];
    JoinAt(Star(Run(head)), Star(Part(head)), rest, k - 1);
    JoinAt(Char(head), Seq(Star(Run(head)), Star(Part(head))), s, 1);
  }

  lemma SnakeByTail(head: Class, s: string, k: nat)
    requires head != Underscore && 1 <= k <= |s| && ClassOf(s[0]) == head
    requires AllIn(s[1..k], {head, Digit}) && Tail(s[k..], head)
    ensures SnakeWord(s, head)
  {
    assert forall i :: 1 <= i < k ==> ClassOf(s[i]) == ClassOf(s[1..k][i - 1]);
    assert forall i :: k <= i < |s| ==> ClassOf(s[i]) == ClassOf(s[k..][i - k]);
    forall i | 0 <= i < |s| - 1
      ensures ClassOf(s[i]) != Underscore || ClassOf(s[i + 1]) != Underscore
    {
      if i >= k { assert s[k..][i - k] == s[i] && s[k..][i - k + 1] == s[i + 1]; }
    }
  }

  lemma SnakeRest(head: Class, s: string, k: nat)
    requires SnakeWord(s, head) && 1 <= k <= |s| && (k < |s| ==> ClassOf(s[k]) == Underscore)
    ensures Tail(s[k..], head)
  {
    var v := s[k..];
    assert forall i :: 0 <= i < |v| ==> v[i] == s[k + i];
    forall i | 0 <= i < |v| - 1
      ensures ClassOf(v[i]) != Underscore || ClassOf(v[i + 1]) != Underscore
    {
      assert v[i + 1] == s[(k + i) + 1];
    }
  }

  lemma InSnake(head: Class, s: string)
    requires head != Underscore
    ensures In(Snake(head), s) <==> SnakeWord(s, head)
  {
    ChoiceIsOneOf(head, Digit);
    hide In, Tail, SinglyJoined;
    if In(Snake(head), s) {
      var k := SnakeSplits(head, s);
      StarOfOne(Run(head), {head, Digit}, s[1..k]);
      InTail(head, s[k..]);
      SnakeByTail(head, s, k);
    }
    if SnakeWord(s, head) {
      var k := Find(s, Underscore, 1);
      StarOfOne(Run(head), {head, Digit}, s[1..k]);
      SnakeRest(head, s, k);
      InTail(head, s[k..]);
      SnakeJoins(head, s, k);
    }
  }

  // ----- Camel case ---------------------------------------------------------

  /** After position i come digits, if any, and then a lower-case letter. */
  predicate Hump(t: string, i: nat) {
    exists j :: i < j < |t| && ClassOf(t[j]) == Lower && forall l :: i < l < j ==> ClassOf(t[l]) == Digit
  }

  /** Letters and digits, each capital the beginning of a word. */
  predicate Camel(t: string) {
    AllIn(t, {Lower, Upper, Digit}) && forall i: nat :: i < |t| && ClassOf(t[i]) == Upper ==> Hump(t, i)
  }

  predicate Word(t: string) {
    t != [] && ClassOf(t[0]) == Upper && AllIn(t[1..], {Lower, Digit}) && Hump(t, 0)
  }

  lemma WordSplits(t: string) returns (k: nat)
    requires In(WORD, t)
    ensures 1 <= k < |t| && ClassOf(t[0]) == Upper && AllIn(t[1..k], {Digit})
    ensures ClassOf(t[k]) == Lower && AllIn(t[k..], {Lower, Digit})
  {
    hide In, OneOf;
    CharIsOneOf(Upper);
    CharIsOneOf(Digit);
    CharIsOneOf(Lower);
    ChoiceIsOneOf(Lower, Digit);
    var j := SeqSplit(UP, Seq(Star(DG), Seq(Plus(LO), Star(LO_DG))), t);
    OneCharacter(UP, {Upper}, t[..j]);
    var r := t[1..];
    var l := SeqSplit(Star(DG), Seq(Plus(LO), Star(LO_DG)), r);
    StarOfOne(DG, {Digit}, r[..l]);
    var w := r[l..];
    var m := SeqSplit(Plus(LO), Star(LO_DG), w);
    PlusOfOne(LO, {Lower}, w[..m]);
    StarOfOne(LO_DG, {Lower, Digit}, w[m..]);
    k := 1 + l;
    assert t[1..k] == r[..l] && t[k..] == w && w == w[..m] + w[m..];
    assert w[0] == w[..m][0];
  }

  lemma WordJoins(t: string, k: nat)
    requires 1 <= k < |t| && ClassOf(t[0]) == Upper && AllIn(t[1..k], {Digit})
    requires ClassOf(t[k]) == Lower && AllIn(t[k + 1..], {Lower, Digit})
    ensures In(WORD, t)
  {
    hide In, OneOf;
    CharIsOneOf(Upper);
    CharIsOneOf(Digit);
    CharIsOneOf(Lower);
    ChoiceIsOneOf(Lower, Digit);
    OneCharacter(UP, {Upper}, t[..1]);
    var rest, tail := t[1..], t[k..];
    assert rest[..k - 1] == t[1..k] && rest[k - 1..] == tail && tail[..1] == [t[k]] && tail[1..] == t[k + 1..];
    StarOfOne(DG, {Digit}, rest[..k - 1]);
    PlusOfOne(LO, {Lower}, tail[..1]);
    StarOfOne(LO_DG, {Lower, Digit}, tail[1..]);
    JoinAt(Plus(LO), Star(LO_DG), tail, 1);
    JoinAt(Star(DG), Seq(Plus(LO), Star(LO_DG)), rest, k - 1);
    JoinAt(UP, Seq(Star(DG), Seq(Plus(LO), Star(LO_DG))), t, 1);
  }

  lemma InWord(t: string)
    ensures In(WORD, t) <==> Word(t)
  {
    hide In;
    if In(WORD, t) {
      var k := WordSplits(t);
      assert forall l :: 0 < l < k ==> ClassOf(t[l]) == ClassOf(t[1..k][l - 1]);
      assert forall l :: k <= l < |t| ==> ClassOf(t[l]) == ClassOf(t[k..][l - k]);
    }
    if Word(t) {
      var k :| 0 < k < |t| && ClassOf(t[k]) == Lower && forall l :: 0 < l < k ==> ClassOf(t[l]) == Digit;
      assert forall l :: 0 < l < |t| ==> ClassOf(t[l]) == ClassOf(t[1..][l - 1]);
      WordJoins(t, k);
    }
  }

  lemma HumpInside(t: string, k: nat, i: nat)
    requires i < k <= |t|
    ensures Hump(t[..k], i) ==> Hump(t, i)
    ensures Hump(t, i) && (k < |t| ==> ClassOf(t[k]) == Upper) ==> Hump(t[..k], i)
  {
    var u := t[..k];
    if Hump(u, i) {
      var j :| i < j < |u| && ClassOf(u[j]) == Lower && forall l :: i < l < j ==> ClassOf(u[l]) == Digit;
      assert forall l :: i < l <= j ==> t[l] == u[l];
    }
    if Hump(t, i) && (k < |t| ==> ClassOf(t[k]) == Upper) {
      var j :| i < j < |t| && ClassOf(t[j]) == Lower && forall l :: i < l < j ==> ClassOf(t[l]) == Digit;
      assert j < k;
      assert forall l :: i < l <= j ==> t[l] == u[l];
    }
  }

  lemma HumpAfter(t: string, k: nat, i: nat)
    requires k <= i <= |t|
    ensures Hump(t[k..], i - k) <==> Hump(t, i)
  {
    var v := t[k..];
    if Hump(v, i - k) {
      var j :| i - k < j < |v| && ClassOf(v[j]) == Lower && forall l :: i - k < l < j ==> ClassOf(v[l]) == Digit;
      assert forall l :: i < l <= k + j ==> t[l] == v[l - k];
    }
    if Hump(t, i) {
      var j :| i < j < |t| && ClassOf(t[j]) == Lower && forall l :: i < l < j ==> ClassOf(t[l]) == Digit;
      assert forall l :: i - k < l <= j - k ==> v[l] == t[l + k];
    }
  }

  /** A word before camel case is camel case. */
  lemma CamelByWord(t: string, k: nat)
    requires k <= |t| && Word(t[..k]) && Camel(t[k..])
    ensures Camel(t)
  {
    var u, v := t[..k], t[k..];
    assert forall i :: 0 < i < k ==> t[i] == u[1..][i - 1];
    assert forall i :: k <= i < |t| ==> t[i] == v[i - k];
    forall i: nat | i < |t| && ClassOf(t[i]) == Upper
      ensures Hump(t, i)
    {
      if i < k { HumpInside(t, k, i); } else { HumpAfter(t, k, i); }
    }
  }

  lemma CamelSplits(t: string, k: nat)
    requires Camel(t) && 0 < k <= |t| && ClassOf(t[0]) == Upper
    requires (k < |t| ==> ClassOf(t[k]) == Upper) && forall i :: 0 < i < k ==> ClassOf(t[i]) != Upper
    ensures Word(t[..k]) && Camel(t[k..])
  {
    HumpInside(t, k, 0);
    CamelRest(t, k);
    hide Hump;
    assert forall i :: 0 < i < k ==> t[..k][1..][i - 1] == t[i];
  }

  lemma CamelRest(t: string, k: nat)
    requires Camel(t) && k <= |t|
    ensures Camel(t[k..])
  {
    var v := t[k..];
    assert forall i :: 0 <= i < |v| ==> v[i] == t[k + i];
    forall i: nat | i < |v| && ClassOf(v[i]) == Upper
      ensures Hump(v, i)
    {
      HumpAfter(t, k, k + i);
    }
  }

  lemma {:induction false} InWords(t: string)
    ensures In(Star(WORD), t) <==> Camel(t) && (t != [] ==> ClassOf(t[0]) == Upper)
    decreases |t|
  {
    hide Hump;
    if t == [] { NothingInStar(WORD); }
    if t != [] && In(Star(WORD), t) {
      hide In, Camel;
      var k := StarSplit(WORD, t);
      InWord(t[..k]);
      InWords(t[k..]);
      CamelByWord(t, k);
    }
    if t != [] && Camel(t) && ClassOf(t[0]) == Upper {
      hide In, Camel;
      var k := Find(t, Upper, 1);
      CamelSplits(t, k);
      InWord(t[..k]);
      InWords(t[k..]);
      InStar(WORD, t[..k], t[k..]);
      assert t == t[..k] + t[k..];
    }
  }

  lemma InCamelCase(t: string)
    ensures In(CAMEL_CASE, t) <==> t != [] && ClassOf(t[0]) == Upper && Camel(t)
  {
    InWord([]);
    hide In, Camel;
    PlusIsStar(WORD, t);
    InWords(t);
  }

  lemma CamelBackSplits(s: string) returns (k: nat)
    requires In(CAMEL_BACK, s)
    ensures 1 <= k <= |s| && ClassOf(s[0]) == Lower && AllIn(s[1..k], {Lower, Digit}) && In(CAMEL_CASE, s[k..])
  {
    hide In, OneOf;
    CharIsOneOf(Lower);
    ChoiceIsOneOf(Lower, Digit);
    var j := SeqSplit(LO, Seq(Star(LO_DG), CAMEL_CASE), s);
    OneCharacter(LO, {Lower}, s[..j]);
    var l := SeqSplit(Star(LO_DG), CAMEL_CASE, s[1..]);
    StarOfOne(LO_DG, {Lower, Digit}, s[1..][..l]);
    k := 1 + l;
    assert s[1..][..l] == s[1..k] && s[1..][l..] == s[k..];
  }

  lemma CamelBackJoins(s: string, k: nat)
    requires 1 <= k <= |s| && ClassOf(s[0]) == Lower && AllIn(s[1..k], {Lower, Digit}) && In(CAMEL_CASE, s[k..])
    ensures In(CAMEL_BACK, s)
  {
    hide In, OneOf, AllIn;
    CharIsOneOf(Lower);
    ChoiceIsOneOf(Lower, Digit);
    OneCharacter(LO, {Lower}, s[..1]);
    StarOfOne(LO_DG, {Lower, Digit}, s[1..k]);
    var rest := s[1..];
    assert rest[..k - 1] == s[1..k] && rest[k - 1..] == s[k..];
    JoinAt(Star(LO_DG), CAMEL_CASE, rest, k - 1);
    JoinAt(LO, Seq(Star(LO_DG), CAMEL_CASE), s, 1);
  }

  lemma CamelBackByCamel(s: string, k: nat)
    requires 1 <= k < |s| && ClassOf(s[0]) == Lower && AllIn(s[1..k], {Lower, Digit}) && Camel(s[k..])
    ensures Camel(s)
  {
    assert forall i :: 1 <= i < k ==> s[i] == s[1..k][i - 1];
    assert forall i :: k <= i < |s| ==> s[i] == s[k..][i - k];
    forall i: nat | i < |s| && ClassOf(s[i]) == Upper
      ensures Hump(s, i)
    {
      HumpAfter(s, k, i);
    }
  }

  lemma InCamelBack(s: string)
    ensures In(CAMEL_BACK, s) <==>
              && s != [] && ClassOf(s[0]) == Lower && Camel(s)
              && exists i :: 0 <= i < |s| && ClassOf(s[i]) == Upper
  {
    hide In, Hump;
    if In(CAMEL_BACK, s) {
      var k := CamelBackSplits(s);
      InCamelCase(s[k..]);
      assert s[k..][0] == s[k];
      CamelBackByCamel(s, k);
    }
    if s != [] && ClassOf(s[0]) == Lower && Camel(s) && exists i :: 0 <= i < |s| && ClassOf(s[i]) == Upper {
      var k := Find(s, Upper, 1);
      CamelRest(s, k);
      assert s[k..][0] == s[k];
      InCamelCase(s[k..]);
      CamelBackJoins(s, k);
    }
  }

  // ----- The rules in characters --------------------------------------------

  lemma ClassesAreCharacters(c: char)
    ensures ClassOf(c) == Lower <==> 'a' <= c <= 'z'
    ensures ClassOf(c) == Upper <==> 'A' <= c <= 'Z'
    ensures ClassOf(c) == Digit <==> '0' <= c <= '9'
    ensures ClassOf(c) == Underscore <==> c == '_'
  {
  }

  /** lower_snake: lower-case letters, digits and underscores, beginning with a
      letter, no underscore last and no two in a row. */
  lemma LowerSnakeInCharacters(s: string)
    ensures Term(s) == Some(LowerSnake) <==>
              && s != [] && 'a' <= s[0] <= 'z' && s[|s| - 1] != '_'
              && (forall i :: 0 <= i < |s| ==> 'a' <= s[i] <= 'z' || '0' <= s[i] <= '9' || s[i] == '_')
              && (forall i :: 0 <= i < |s| - 1 ==> s[i] != '_' || s[i + 1] != '_')
  {
    TermIsRegular(s, LowerSnake);
    assert Body(LowerSnake) == Snake(Lower);
    InSnake(Lower, s);
    hide Term, In, Snake;
    forall c: char
      ensures (ClassOf(c) == Lower <==> 'a' <= c <= 'z') && (ClassOf(c) == Digit <==> '0' <= c <= '9')
      ensures ClassOf(c) == Underscore <==> c == '_'
    {
      ClassesAreCharacters(c);
    }
    hide ClassOf;
  }

  /** upper_snake: the same with capitals. */
  lemma UpperSnakeInCharacters(s: string)
    ensures Term(s) == Some(UpperSnake) <==>
              && s != [] && 'A' <= s[0] <= 'Z' && s[|s| - 1] != '_'
              && (forall i :: 0 <= i < |s| ==> 'A' <= s[i] <= 'Z' || '0' <= s[i] <= '9' || s[i] == '_')
              && (forall i :: 0 <= i < |s| - 1 ==> s[i] != '_' || s[i + 1] != '_')
  {
    TermIsRegular(s, UpperSnake);
    assert Body(UpperSnake) == Snake(Upper);
    InSnake(Upper, s);
    hide Term, In, Snake;
    forall c: char
      ensures (ClassOf(c) == Upper <==> 'A' <= c <= 'Z') && (ClassOf(c) == Digit <==> '0' <= c <= '9')
      ensures ClassOf(c) == Underscore <==> c == '_'
    {
      ClassesAreCharacters(c);
    }
    hide ClassOf;
  }

  lemma CamelInCharacters(s: string)
    ensures Camel(s) <==>
              && (forall i :: 0 <= i < |s| ==> 'a' <= s[i] <= 'z' || 'A' <= s[i] <= 'Z' || '0' <= s[i] <= '9')
              && (forall i: nat :: i < |s| && 'A' <= s[i] <= 'Z' ==>
                    exists j :: i < j < |s| && 'a' <= s[j] <= 'z' && forall l :: i < l < j ==> '0' <= s[l] <= '9')
  {
    forall i: nat
      ensures Hump(s, i) <==>
                exists j :: i < j < |s| && 'a' <= s[j] <= 'z' && forall l :: i < l < j ==> '0' <= s[l] <= '9'
    {
      HumpInCharacters(s, i);
    }
    hide Hump;
  }

  lemma HumpInCharacters(s: string, i: nat)
    ensures Hump(s, i) <==>
              exists j :: i < j < |s| && 'a' <= s[j] <= 'z' && forall l :: i < l < j ==> '0' <= s[l] <= '9'
  {
  }

  /** camel_case: letters and digits, beginning with a capital, and after each
      capital, possibly after some digits, a lower-case letter. */
  lemma CamelCaseInCharacters(s: string)
    ensures Term(s) == Some(CamelCase) <==>
              && s != [] && 'A' <= s[0] <= 'Z'
              && (forall i :: 0 <= i < |s| ==> 'a' <= s[i] <= 'z' || 'A' <= s[i] <= 'Z' || '0' <= s[i] <= '9')
              && (forall i: nat :: i < |s| && 'A' <= s[i] <= 'Z' ==>
                    exists j :: i < j < |s| && 'a' <= s[j] <= 'z' && forall l :: i < l < j ==> '0' <= s[l] <= '9')
  {
    TermIsRegular(s, CamelCase);
    InCamelCase(s);
    CamelInCharacters(s);
    hide Term, In, Camel;
  }

  /** camel_back: the same, but beginning with a lower-case letter and with a
      capital somewhere. */
  lemma CamelBackInCharacters(s: string)
    ensures Term(s) == Some(CamelBack) <==>
              && s != [] && 'a' <= s[0] <= 'z' && (exists i :: 0 <= i < |s| && 'A' <= s[i] <= 'Z')
              && (forall i :: 0 <= i < |s| ==> 'a' <= s[i] <= 'z' || 'A' <= s[i] <= 'Z' || '0' <= s[i] <= '9')
              && (forall i: nat :: i < |s| && 'A' <= s[i] <= 'Z' ==>
                    exists j :: i < j < |s| && 'a' <= s[j] <= 'z' && forall l :: i < l < j ==> '0' <= s[l] <= '9')
  {
    TermIsRegular(s, CamelBack);
    InCamelBack(s);
    CamelInCharacters(s);
    hide Term, In, Camel;
  }
}
