// The rule substrate: condition trees over a subject's fields, evaluated with
// three-valued logic at one of the moments search < grab < import.
module Rules {
  import opened Options

  datatype Tri = False | True | Unknown

  datatype Phase = Search | Grab | Import

  function Rank(phase: Phase): nat
  {
    match phase case Search => 0 case Grab => 1 case Import => 2
  }

  datatype Operator =
    | Eq | Ne | Gt | Gte | Lt | Lte | Contains | In | NotIn
    | And | Or | Not
    | Unsupported

  predicate IsLogical(op: Operator) { op.And? || op.Or? || op.Not? }

  predicate IsComparison(op: Operator) { !IsLogical(op) && op != Unsupported }

  // A bare value. Integers and floats meet as numbers; Nothing is what a literal
  // of unknown type holds.
  datatype Value = Text(s: string) | Number(n: real) | Flag(b: bool) | Texts(list: seq<string>) | Nothing

  datatype Operand = Field(path: string) | Literal(value: Value) | Malformed

  // One node of a rule tree; None stands for a nil pointer.
  datatype Condition = Condition(op: Operator, left: Option<Operand>, right: Option<Operand>,
                                 children: seq<Option<Condition>>)

  // The part of a subject that rules read: the set fields, and whether the halves
  // behind "mediainfo." and "want." are assembled.
  datatype Subject = Subject(fields: map<string, Value>, hasMediaInfo: bool, hasWant: bool)

  // The field catalogue: the earliest phase at which each registered field is known.
  type Registry = map<string, Phase>

  function FromBool(b: bool): Tri { if b then True else False }

  function TriNot(t: Tri): Tri
  {
    match t case True => False case False => True case Unknown => Unknown
  }

  predicate Populated(path: string, s: Subject)
  {
    if "mediainfo." <= path then s.hasMediaInfo
    else if "want." <= path then s.hasWant
    else true
  }

  // The bare value of an operand, or None when it is missing or not yet knowable.
  function Resolve(reg: Registry, operand: Option<Operand>, s: Subject, at: Phase): Option<Value>
  {
    match operand
    case None => None
    case Some(Malformed) => None
    case Some(Literal(value)) => Some(value)
    case Some(Field(path)) =>
      if path in reg && Rank(reg[path]) <= Rank(at) && Populated(path, s) && path in s.fields
      then Some(s.fields[path]) else None
  }

  predicate Substring(s: string, sub: string)
  {
    sub <= s || (s != "" && Substring(s[1..], sub))
  }

  predicate SameElements(a: seq<string>, b: seq<string>)
  {
    (set x | x in a) == (set x | x in b)
  }

  predicate Equal(left: Value, right: Value)
  {
    match (left, right)
    case (Number(m), Number(n)) => m == n
    case (Text(s), Text(t)) => s == t
    case (Flag(a), Flag(b)) => a == b
    case (Texts(a), Texts(b)) => SameElements(a, b)
    case _ => false
  }

  function Order(op: Operator, left: Value, right: Value): Tri
  {
    match (left, right)
    case (Number(m), Number(n)) =>
      (match op
       case Gt => FromBool(m > n)
       case Gte => FromBool(m >= n)
       case Lt => FromBool(m < n)
       case Lte => FromBool(m <= n)
       case _ => Unknown)
    case _ => Unknown
  }

  function Containment(left: Value, right: Value): Tri
  {
    match (left, right)
    case (Text(s), Text(t)) => FromBool(Substring(s, t))
    case (Texts(list), Text(t)) => FromBool(t in list)
    case _ => Unknown
  }

  function Membership(left: Value, right: Value): Tri
  {
    match (left, right)
    case (Text(s), Texts(list)) => FromBool(s in list)
    case _ => Unknown
  }

  function Compare(op: Operator, left: Value, right: Value): Tri
  {
    match op
    case Eq => FromBool(Equal(left, right))
    case Ne => TriNot(FromBool(Equal(left, right)))
    case Gt => Order(op, left, right)
    case Gte => Order(op, left, right)
    case Lt => Order(op, left, right)
    case Lte => Order(op, left, right)
    case Contains => Containment(left, right)
    case In => Membership(left, right)
    case NotIn => TriNot(Membership(left, right))
    case _ => Unknown
  }

  // Kleene conjunction and disjunction of a list of results.
  function AllOf(results: seq<Tri>): Tri
  {
    if False in results then False else if Unknown in results then Unknown else True
  }

  function AnyOf(results: seq<Tri>): Tri
  {
    if True in results then True else if Unknown in results then Unknown else False
  }

  function Eval(reg: Registry, cond: Option<Condition>, s: Subject, at: Phase): Tri
    decreases cond, 1
  {
    match cond
    case None => Unknown
    case Some(node) =>
      if IsLogical(node.op) then Combine(node.op, EvalAll(reg, node.children, s, at))
      else if IsComparison(node.op) then
        var left, right := Resolve(reg, node.left, s, at), Resolve(reg, node.right, s, at);
        if left.None? || right.None? then Unknown else Compare(node.op, left.value, right.value)
      else Unknown
  }

  function EvalAll(reg: Registry, conds: seq<Option<Condition>>, s: Subject, at: Phase): (r: seq<Tri>)
    ensures |r| == |conds|
    decreases conds, 0
  {
    if conds == [] then [] else [Eval(reg, conds[0], s, at)] + EvalAll(reg, conds[1..], s, at)
  }

  // No children, or a negation of the wrong arity, decides nothing.
  function Combine(op: Operator, results: seq<Tri>): Tri
  {
    if results == [] then Unknown
    else match op
         case Not => if |results| == 1 then TriNot(results[0]) else Unknown
         case And => AllOf(results)
         case Or => AnyOf(results)
         case _ => Unknown
  }

  // evalLogical's accumulation over the children's results, in source order with
  // an early exit.
  method CombineInOrder(op: Operator, results: seq<Tri>) returns (result: Tri)
    requires IsLogical(op)
    ensures result == Combine(op, results)
  {
    result := Unknown;
    if |results| == 0 { return; }
    match op {
      case Not =>
        if |results| == 1 { result := TriNot(results[0]); }
      case And =>
        result := True;
        for i := 0 to |results|
          invariant result == AllOf(results[..i]) && result != False
        {
          assert results[..i + 1] == results[..i] + [results[i]];
          if results[i] == False {
            assert results[i] in results;
            return False;
          }
          if results[i] == Unknown { result := Unknown; }
        }
        assert results[..|results|] == results;
      case Or =>
        result := False;
        for i := 0 to |results|
          invariant result == AnyOf(results[..i]) && result != True
        {
          assert results[..i + 1] == results[..i] + [results[i]];
          if results[i] == True {
            assert results[i] in results;
            return True;
          }
          if results[i] == Unknown { result := Unknown; }
        }
        assert results[..|results|] == results;
    }
  }

  // ------------------------------------------------------ what a leaf knows

  // The moments at which a field of this phase is known.
  predicate KnownBy(phase: Phase, at: Phase)
  {
    phase == Search || at == Import || (phase == Grab && at == Grab)
  }

  // The value of a field that a rule may read at this moment.
  predicate Readable(reg: Registry, path: string, s: Subject, at: Phase, value: Value)
  {
    && path in reg && KnownBy(reg[path], at)
    && ("mediainfo." <= path ==> s.hasMediaInfo) && ("want." <= path ==> s.hasWant)
    && path in s.fields && s.fields[path] == value
  }

  // What an operand stands for; at most one value.
  predicate StandsFor(reg: Registry, operand: Option<Operand>, s: Subject, at: Phase, value: Value)
  {
    operand == Some(Literal(value))
    || (operand.Some? && operand.value.Field? && Readable(reg, operand.value.path, s, at, value))
  }

  lemma NamespacesDiffer(path: string)
    ensures "mediainfo." <= path ==> !("want." <= path)
  {
    if "mediainfo." <= path { assert path[0] == 'm'; }
  }

  // A comparison is decided by the values of its operands, and is unknown exactly
  // when one of them has none or the values cannot be compared.
  lemma LeafExactly(reg: Registry, node: Condition, s: Subject, at: Phase)
    requires node.op !in {And, Or, Not, Unsupported}
    ensures forall x, y :: StandsFor(reg, node.left, s, at, x) && StandsFor(reg, node.right, s, at, y) ==>
              Eval(reg, Some(node), s, at) == Compare(node.op, x, y)
    ensures (forall x :: !StandsFor(reg, node.left, s, at, x)) || (forall y :: !StandsFor(reg, node.right, s, at, y)) ==>
              Eval(reg, Some(node), s, at) == Unknown
  {
    OperandExactly(reg, node.left, s, at);
    OperandExactly(reg, node.right, s, at);
  }

  lemma OperandExactly(reg: Registry, operand: Option<Operand>, s: Subject, at: Phase)
    ensures forall value :: Resolve(reg, operand, s, at) == Some(value) <==> StandsFor(reg, operand, s, at, value)
  {
    if operand.Some? && operand.value.Field? { NamespacesDiffer(operand.value.path); }
  }

  lemma {:induction false} SubstringExactly(s: string, sub: string)
    ensures Substring(s, sub) <==> exists i :: 0 <= i <= |s| && sub <= s[i..]
  {
    assert s[0..] == s;
    if s != "" {
      SubstringExactly(s[1..], sub);
      if i :| 0 <= i <= |s[1..]| && sub <= s[1..][i..] { assert s[1..][i..] == s[i + 1..]; }
      if i :| 0 < i <= |s| && sub <= s[i..] { assert s[1..][i - 1..] == s[i..]; }
    }
  }

  // Values of one type are compared by their contents, lists as sets; numbers are
  // ordered, texts hold texts, lists hold texts, and nothing else is decided, except
  // that values of different types are unequal.
  lemma CompareExactly(left: Value, right: Value)
    ensures Compare(Eq, left, right) != Unknown && Compare(Ne, left, right) != Unknown
    ensures Compare(Eq, left, right) == True <==>
            (left == right && left != Nothing)
            || (left.Texts? && right.Texts? && forall x :: x in left.list <==> x in right.list)
    ensures left.Number? && right.Number? <==> Compare(Gt, left, right) != Unknown
    ensures (left.Text? || left.Texts?) && right.Text? <==> Compare(Contains, left, right) != Unknown
    ensures left.Text? && right.Texts? <==> Compare(In, left, right) != Unknown
    ensures left.Text? && right.Text? ==>
              (Compare(Contains, left, right) == True <==> exists i :: 0 <= i <= |left.s| && right.s <= left.s[i..])
    ensures left.Texts? && right.Text? ==> (Compare(Contains, left, right) == True <==> right.s in left.list)
  {
    if left.Text? && right.Text? { SubstringExactly(left.s, right.s); }
    if left.Texts? && right.Texts? {
      var a, b := set x | x in left.list, set x | x in right.list;
      assert forall x :: x in a <==> x in left.list;
      assert forall x :: x in b <==> x in right.list;
    }
  }

  // A branch needs children, and a negation exactly one; then it is the conjunction,
  // disjunction or negation of what they decide, and unknown if they leave it open.
  lemma BranchExactly(reg: Registry, node: Condition, s: Subject, at: Phase)
    requires IsLogical(node.op)
    ensures var r := EvalAll(reg, node.children, s, at); var result := Eval(reg, Some(node), s, at);
            && |r| == |node.children|
            && (r == [] ==> result == Unknown)
            && (node.op == And && r != [] ==>
                  (result == True <==> forall i :: 0 <= i < |r| ==> r[i] == True)
                  && (result == False <==> exists i :: 0 <= i < |r| && r[i] == False))
            && (node.op == Or && r != [] ==>
                  (result == True <==> exists i :: 0 <= i < |r| && r[i] == True)
                  && (result == False <==> forall i :: 0 <= i < |r| ==> r[i] == False))
            && (node.op == Not && r != [] ==>
                  (result == True <==> |r| == 1 && r[0] == False) && (result == False <==> |r| == 1 && r[0] == True))
  {
    var r := EvalAll(reg, node.children, s, at);
    assert forall t: Tri :: t in r <==> exists i :: 0 <= i < |r| && r[i] == t;
  }

  // A missing tree and an operator that is not supported decide nothing.
  lemma NothingDecided(reg: Registry, node: Condition, s: Subject, at: Phase)
    ensures Eval(reg, None, s, at) == Unknown
    ensures node.op == Unsupported ==> Eval(reg, Some(node), s, at) == Unknown
  {
  }

  lemma {:induction false} EvalEach(reg: Registry, conds: seq<Option<Condition>>, s: Subject, at: Phase, i: nat)
    requires i < |conds|
    ensures EvalAll(reg, conds, s, at)[i] == Eval(reg, conds[i], s, at)
  {
    if i > 0 { EvalEach(reg, conds[1..], s, at, i - 1); }
  }

  // ------------------------------------------------------- laws of the logic

  // The ordering operators mirror and negate each other, the negated operators
  // negate, and on numbers they have their arithmetic meaning.
  lemma ComparisonLaws(left: Value, right: Value)
    ensures Compare(Gt, left, right) == Compare(Lt, right, left) == TriNot(Compare(Lte, left, right))
    ensures Compare(Gte, left, right) == Compare(Lte, right, left)
    ensures Compare(Eq, left, right) == Compare(Eq, right, left) == TriNot(Compare(Ne, left, right))
    ensures Compare(NotIn, left, right) == TriNot(Compare(In, left, right))
    ensures left.Text? && right.Texts? ==> Compare(In, left, right) == Compare(Contains, right, left)
    ensures left.Number? && right.Number? ==>
              && (Compare(Gt, left, right) == True <==> left.n > right.n)
              && (Compare(Eq, left, right) == True <==> left == right)
  {
  }

  function Negation(c: Option<Condition>): Option<Condition> { Some(Condition(Not, None, None, [c])) }

  function Junction(op: Operator, conds: seq<Option<Condition>>): Option<Condition> { Some(Condition(op, None, None, conds)) }

  function Negations(conds: seq<Option<Condition>>): (r: seq<Option<Condition>>)
    ensures |r| == |conds|
  {
    if conds == [] then [] else [Negation(conds[0])] + Negations(conds[1..])
  }

  lemma NegationNegates(reg: Registry, c: Option<Condition>, s: Subject, at: Phase)
    ensures Eval(reg, Negation(c), s, at) == TriNot(Eval(reg, c, s, at))
  {
    assert EvalAll(reg, [c], s, at) == [Eval(reg, c, s, at)];
  }

  lemma {:induction false} NegationsNegate(reg: Registry, conds: seq<Option<Condition>>, s: Subject, at: Phase, i: nat)
    requires i < |conds|
    ensures EvalAll(reg, Negations(conds), s, at)[i] == TriNot(EvalAll(reg, conds, s, at)[i])
  {
    NegationNegates(reg, conds[0], s, at);
    if i > 0 { NegationsNegate(reg, conds[1..], s, at, i - 1); }
  }

  lemma NegatedMembers(r: seq<Tri>, r': seq<Tri>, t: Tri)
    requires |r| == |r'| && forall i :: 0 <= i < |r| ==> r'[i] == TriNot(r[i])
    ensures t in r <==> TriNot(t) in r'
  {
  }

  // De Morgan's laws hold of any subtrees, at any moment, unknowns and empty
  // branches included.
  lemma DeMorgan(reg: Registry, conds: seq<Option<Condition>>, s: Subject, at: Phase)
    ensures Eval(reg, Negation(Junction(And, conds)), s, at) == Eval(reg, Junction(Or, Negations(conds)), s, at)
    ensures Eval(reg, Negation(Junction(Or, conds)), s, at) == Eval(reg, Junction(And, Negations(conds)), s, at)
  {
    NegationNegates(reg, Junction(And, conds), s, at);
    NegationNegates(reg, Junction(Or, conds), s, at);
    var r, r' := EvalAll(reg, conds, s, at), EvalAll(reg, Negations(conds), s, at);
    forall i | 0 <= i < |r| ensures r'[i] == TriNot(r[i]) { NegationsNegate(reg, conds, s, at, i); }
    NegatedMembers(r, r', True);
    NegatedMembers(r, r', False);
    NegatedMembers(r, r', Unknown);
  }

  // ----------------------------------------------------------- the ratchet

  // later knows everything about the release that earlier does: assembled halves
  // stay assembled and set fields keep their values.
  predicate Accumulates(earlier: Subject, later: Subject)
  {
    && (earlier.hasMediaInfo ==> later.hasMediaInfo)
    && (earlier.hasWant ==> later.hasWant)
    && forall path :: path in earlier.fields ==> path in later.fields && later.fields[path] == earlier.fields[path]
  }

  predicate Resolves(t: Tri, t': Tri) { t == Unknown || t' == t }

  predicate ResolvesAll(r: seq<Tri>, r': seq<Tri>)
  {
    |r| == |r'| && forall i :: 0 <= i < |r| ==> Resolves(r[i], r'[i])
  }

  lemma CombineRatchet(op: Operator, r: seq<Tri>, r': seq<Tri>)
    requires ResolvesAll(r, r')
    ensures Resolves(Combine(op, r), Combine(op, r'))
  {
  }

  // Knowledge only accumulates: a verdict reached at one moment is the verdict at
  // every later moment, for any tree.
  lemma {:induction false} EvalRatchet(reg: Registry, cond: Option<Condition>, s: Subject, at: Phase,
                                       s': Subject, at': Phase)
    requires Accumulates(s, s') && Rank(at) <= Rank(at')
    ensures Resolves(Eval(reg, cond, s, at), Eval(reg, cond, s', at'))
    decreases cond, 1
  {
    if cond.Some? && IsLogical(cond.value.op) {
      EvalAllRatchet(reg, cond.value.children, s, at, s', at');
      CombineRatchet(cond.value.op, EvalAll(reg, cond.value.children, s, at), EvalAll(reg, cond.value.children, s', at'));
    }
  }

  lemma {:induction false} EvalAllRatchet(reg: Registry, conds: seq<Option<Condition>>, s: Subject, at: Phase,
                                          s': Subject, at': Phase)
    requires Accumulates(s, s') && Rank(at) <= Rank(at')
    ensures ResolvesAll(EvalAll(reg, conds, s, at), EvalAll(reg, conds, s', at'))
    decreases conds, 0
  {
    if conds != [] {
      EvalRatchet(reg, conds[0], s, at, s', at');
      EvalAllRatchet(reg, conds[1..], s, at, s', at');
    }
  }
}
