/** Splitting a WHERE condition into an index condition and a residual filter (src/expr/ExprLogic.h,
    src/expr/ExprStatement.cpp:28-70).

    Expressions are values; a method that changes an expression in place returns the changed one. */
module WhereSplit {
  import opened Pages

  datatype TriBool = Error | False | True

  /** A value of some type group; only values of one group can be compared.  NULL is below the others. */
  datatype Val = Val(group: nat, num: Option<real>)

  datatype CompType = EQ | GT | GE | LT | LE | NE

  datatype Data = Field(rowPos: nat) | Const(val: Val) | Para(pos: nat) | Arith(op: nat, left: Data, right: Data)

  datatype Logic =
    | Comp(compType: CompType, left: Data, right: Data)
    | InNot(data: Data, array_: seq<Val>, bIn: bool)
    | IsNullNot(data: Data, bNull: bool)
    | Between(child: Data, low: Data, high: Data)
    | Not(arg: Logic)
    | And(vctChild: seq<Logic>)
    | Or(vctChild: seq<Logic>)

  /** A row, the statement's parameters and the arithmetic of the data types. */
  datatype Env = Env(row: seq<Val>, paras: seq<Val>, arith: (nat, Val, Val) -> Option<Val>)

  // ---------- evaluation ----------

  predicate AbleCompare(a: Val, b: Val) {
    a.group == b.group
  }

  predicate Less(a: Val, b: Val) {
    b.num.Some? && (a.num.None? || a.num.value < b.num.value)
  }

  predicate CompHolds(t: CompType, a: Val, b: Val) {
    match t
    case EQ => a.num == b.num
    case NE => a.num != b.num
    case GT => Less(b, a)
    case GE => !Less(a, b)
    case LT => Less(a, b)
    case LE => !Less(b, a)
  }

  function CalcData(d: Data, env: Env): Option<Val> {
    match d
    case Field(i) => if i < |env.row| then Some(env.row[i]) else None
    case Const(v) => Some(v)
    case Para(i) => if i < |env.paras| then Some(env.paras[i]) else None
    case Arith(op, l, r) =>
      var a, b := CalcData(l, env), CalcData(r, env);
      if a.None? || b.None? then None else env.arith(op, a.value, b.value)
  }

  function Tri(b: bool): TriBool {
    if b then True else False
  }

  function NotTri(tb: TriBool): TriBool {
    if tb == Error then Error else Tri(tb == False)
  }

  function CalcComp(t: CompType, a: Option<Val>, b: Option<Val>): TriBool {
    if a.None? || b.None? || !AbleCompare(a.value, b.value) then Error else Tri(CompHolds(t, a.value, b.value))
  }

  function Calc(e: Logic, env: Env): TriBool {
    match e
    case Comp(t, l, r) => CalcComp(t, CalcData(l, env), CalcData(r, env))
    case InNot(d, arr, bIn) =>
      var v := CalcData(d, env);
      if v.None? then Error else Tri(bIn == (v.value in arr))
    case IsNullNot(d, bNull) =>
      var v := CalcData(d, env);
      if v.None? then Error else Tri(bNull == v.value.num.None?)
    case Between(c, l, h) =>
      var v, a, b := CalcData(c, env), CalcData(l, env), CalcData(h, env);
      if v.None? || a.None? || b.None? || !AbleCompare(v.value, a.value) || !AbleCompare(v.value, b.value) then Error
      else Tri(CompHolds(GE, v.value, a.value) && CompHolds(LE, v.value, b.value))
    case Not(c) =>
      NotTri(Calc(c, env))
    case And(cs) => CalcAnd(cs, env)
    case Or(cs) => CalcOr(cs, env)
  }

  function CalcAnd(cs: seq<Logic>, env: Env): TriBool {
    if cs == [] then True
    else
      var tb := Calc(cs[0], env);
      if tb != True then tb else CalcAnd(cs[1..], env)
  }

  function CalcOr(cs: seq<Logic>, env: Env): TriBool {
    if cs == [] then False
    else
      var tb := Calc(cs[0], env);
      if tb != False then tb else CalcOr(cs[1..], env)
  }

  /** A conjunction is true when all its conjuncts are, and without errors it is false otherwise: the order
      of the conjuncts only matters for which error is met. */
  lemma {:induction false} AndMeans(cs: seq<Logic>, env: Env)
    ensures CalcAnd(cs, env) == True <==> forall c :: c in cs ==> Calc(c, env) == True
    ensures (forall c :: c in cs ==> Calc(c, env) != Error) ==>
              CalcAnd(cs, env) == Tri(!exists c :: c in cs && Calc(c, env) == False)
    ensures CalcAnd(cs, env) != True ==> exists i :: 0 <= i < |cs| && FirstOther(cs, i, env, True, CalcAnd(cs, env))
  {
    if cs != [] {
      AndMeans(cs[1..], env);
      OtherLater(cs, env, True, CalcAnd(cs, env));
      assert cs[0] in cs;
      forall c ensures c in cs <==> c == cs[0] || c in cs[1..] {
        assert cs == [cs[0]] + cs[1..];
      }
    }
  }

  /** Condition i gives tb, and all before it `neutral`. */
  ghost predicate FirstOther(cs: seq<Logic>, i: nat, env: Env, neutral: TriBool, tb: TriBool)
    requires i < |cs|
  {
    Calc(cs[i], env) == tb != neutral && forall j :: 0 <= j < i ==> Calc(cs[j], env) == neutral
  }

  lemma OtherLater(cs: seq<Logic>, env: Env, neutral: TriBool, tb: TriBool)
    requires cs != []
    ensures Calc(cs[0], env) == tb != neutral ==> FirstOther(cs, 0, env, neutral, tb)
    ensures Calc(cs[0], env) == neutral ==>
              (exists i :: 0 <= i < |cs[1..]| && FirstOther(cs[1..], i, env, neutral, tb)) ==>
                exists i :: 0 <= i < |cs| && FirstOther(cs, i, env, neutral, tb)
  {
    if Calc(cs[0], env) == neutral {
      if i :| 0 <= i < |cs[1..]| && FirstOther(cs[1..], i, env, neutral, tb) {
        forall j | 0 <= j < i + 1 ensures Calc(cs[j], env) == neutral {
          if j > 0 { assert cs[1..][j - 1] == cs[j]; }
        }
        assert FirstOther(cs, i + 1, env, neutral, tb);
      }
    }
  }

  /** A disjunction is false when all its alternatives are.  Without errors it is true exactly when one of them is;
      else its answer is that of the first alternative that is not false. */
  lemma {:induction false} OrMeans(cs: seq<Logic>, env: Env)
    ensures CalcOr(cs, env) == False <==> forall c :: c in cs ==> Calc(c, env) == False
    ensures (forall c :: c in cs ==> Calc(c, env) != Error) ==>
              CalcOr(cs, env) == Tri(exists c :: c in cs && Calc(c, env) == True)
    ensures CalcOr(cs, env) != False ==> exists i :: 0 <= i < |cs| && FirstOther(cs, i, env, False, CalcOr(cs, env))
  {
    if cs != [] {
      OrMeans(cs[1..], env);
      OtherLater(cs, env, False, CalcOr(cs, env));
      assert cs[0] in cs;
      forall c ensures c in cs <==> c == cs[0] || c in cs[1..] {
        assert cs == [cs[0]] + cs[1..];
      }
    }
  }

  function Negated(cs: seq<Logic>): (r: seq<Logic>)
    ensures |r| == |cs| && forall i :: 0 <= i < |cs| ==> r[i] == Not(cs[i])
  {
    seq(|cs|, i requires 0 <= i < |cs| => Not(cs[i]))
  }

  /** NOT turns true and false around and keeps errors, so AND, OR and NOT obey the laws of De Morgan, errors
      included. */
  lemma {:induction false} NotMeans(cs: seq<Logic>, e: Logic, env: Env)
    ensures Calc(Not(Not(e)), env) == Calc(e, env)
    ensures Calc(Not(e), env) == True <==> Calc(e, env) == False
    ensures Calc(Not(Or(cs)), env) == Calc(And(Negated(cs)), env)
    ensures Calc(Not(And(cs)), env) == Calc(Or(Negated(cs)), env)
  {
    var ns := Negated(cs);
    assert Calc(Not(Or(cs)), env) == NotTri(CalcOr(cs, env)) && Calc(Not(And(cs)), env) == NotTri(CalcAnd(cs, env));
    if cs != [] {
      NotMeans(cs[1..], e, env);
      assert CalcAnd(ns, env) == if Calc(ns[0], env) != True then Calc(ns[0], env) else CalcAnd(ns[1..], env);
      assert CalcOr(ns, env) == if Calc(ns[0], env) != False then Calc(ns[0], env) else CalcOr(ns[1..], env);
      assert ns[1..] == Negated(cs[1..]) && ns[0] == Not(cs[0]);
      assert Calc(Not(Or(cs[1..])), env) == NotTri(CalcOr(cs[1..], env)) == CalcAnd(ns[1..], env);
      assert Calc(Not(And(cs[1..])), env) == NotTri(CalcAnd(cs[1..], env)) == CalcOr(ns[1..], env);
    }
  }

  /** The place of a value in the order: NULL first, then the numbers. */
  predicate Precedes(a: Val, b: Val) {
    if a.num.None? then b.num.Some? else b.num.Some? && a.num.value < b.num.value
  }

  /** The six comparisons are those of one total order, NULL below every other value; values of different groups
      cannot be compared, and a failing operand fails the comparison. */
  lemma CompMeans(t: CompType, l: Data, r: Data, env: Env)
    ensures var a, b := CalcData(l, env), CalcData(r, env); var tb := Calc(Comp(t, l, r), env);
      && (tb == Error <==> a.None? || b.None? || a.value.group != b.value.group)
      && (tb != Error ==>
            var before, after := Precedes(a.value, b.value), Precedes(b.value, a.value);
            tb == Tri(match t
              case EQ => !before && !after
              case NE => before || after
              case LT => before
              case GE => !before
              case GT => after
              case LE => !after))
      && (tb != Error && !Precedes(a.value, b.value) && !Precedes(b.value, a.value) ==> a == b)
  {
  }

  /** What a condition on an index says of a row: the field's value stands to the constant, or to the parameter, as the
      comparison asks; a field or parameter that is not there fails, and arithmetic gives what the data types give. */
  lemma OperandsMean(t: CompType, i: nat, v: Val, env: Env)
    requires i < |env.row|
    ensures Calc(Comp(t, Field(i), Const(v)), env)
            == if env.row[i].group == v.group then Tri(CompHolds(t, env.row[i], v)) else Error
    ensures forall j :: 0 <= j < |env.paras| ==>
              Calc(Comp(t, Field(i), Para(j)), env) == Calc(Comp(t, Field(i), Const(env.paras[j])), env)
    ensures forall j :: j >= |env.paras| ==> Calc(Comp(t, Field(i), Para(j)), env) == Error
    ensures forall j: nat :: j >= |env.row| ==> Calc(Comp(t, Field(j), Const(v)), env) == Error
    ensures forall op, w :: Calc(Comp(t, Arith(op, Field(i), Const(v)), Const(w)), env)
                            == CalcComp(t, env.arith(op, env.row[i], v), Some(w))
  {
  }

  /** BETWEEN says what its two comparisons say together, and fails when one of them does. */
  lemma BetweenMeans(c: Data, l: Data, h: Data, env: Env)
    ensures var low, high := Comp(GE, c, l), Comp(LE, c, h);
      && (Calc(Between(c, l, h), env) == Error <==> Calc(low, env) == Error || Calc(high, env) == Error)
      && (Calc(Between(c, l, h), env) == True <==> Calc(And([low, high]), env) == True)
  {
    var low, high := Comp(GE, c, l), Comp(LE, c, h);
    AndMeans([low, high], env);
    assert [low, high][0] == low && [low, high][1] == high;
  }

  function Equals(d: Data, arr: seq<Val>): (r: seq<Logic>)
    ensures |r| == |arr| && forall i :: 0 <= i < |arr| ==> r[i] == Comp(EQ, d, Const(arr[i]))
  {
    seq(|arr|, i requires 0 <= i < |arr| => Comp(EQ, d, Const(arr[i])))
  }

  /** IN is the disjunction of equations, for a list of values that compare with the operand; NOT IN its opposite. */
  lemma {:induction false} InMeans(d: Data, arr: seq<Val>, env: Env)
    requires var v := CalcData(d, env);
      v.None? || forall w :: w in arr ==> AbleCompare(v.value, w)
    ensures arr != [] || CalcData(d, env).Some? ==> Calc(InNot(d, arr, true), env) == Calc(Or(Equals(d, arr)), env)
    ensures Calc(InNot(d, arr, false), env) == Calc(Not(InNot(d, arr, true)), env)
  {
    var v := CalcData(d, env);
    if arr != [] {
      InMeans(d, arr[1..], env);
      assert Equals(d, arr)[1..] == Equals(d, arr[1..]);
      CompMeans(EQ, d, Const(arr[0]), env);
      hide CalcData;
      if v.Some? {
        assert arr == [arr[0]] + arr[1..];
        assert Calc(Equals(d, arr)[0], env) == Tri(v.value == arr[0]);
      }
    }
  }

  // ---------- what a condition says about the index ----------

  predicate IsConstValue(d: Data) {
    match d
    case Field(_) => false
    case Const(_) => true
    case Para(_) => true
    case Arith(_, l, r) => IsConstValue(l) && IsConstValue(r)
  }

  /** IS NULL is equality with NULL, and IS NOT NULL its opposite. */
  lemma IsNullMeans(d: Data, env: Env)
    ensures CalcData(d, env).None? ==> Calc(IsNullNot(d, true), env) == Error
    ensures CalcData(d, env).Some? ==>
              Calc(IsNullNot(d, true), env) == Calc(Comp(EQ, d, Const(Val(CalcData(d, env).value.group, None))), env)
    ensures Calc(IsNullNot(d, false), env) == Calc(Not(IsNullNot(d, true)), env)
  {
  }

  /** The fields an operand reads. */
  function FieldsRead(d: Data): set<nat> {
    match d
    case Field(i) => {i}
    case Arith(_, l, r) => FieldsRead(l) + FieldsRead(r)
    case _ => {}
  }

  /** A constant value reads no field: it is the same for every row, so it can be searched for. */
  lemma {:induction false} ConstForAllRows(d: Data, env: Env, row: seq<Val>)
    ensures IsConstValue(d) <==> FieldsRead(d) == {}
    ensures IsConstValue(d) ==> CalcData(d, env.(row := row)) == CalcData(d, env)
  {
    if d.Arith? {
      ConstForAllRows(d.left, env, row);
      ConstForAllRows(d.right, env, row);
    }
  }

  /** The outcome of PickIndexCondition.  NullPointer: the search goes through a null pointer.  An AND below another
      node that finds an index condition stores it through the one it was given (ExprLogic.h:463-466). */
  datatype Pick = Yes(idxPos: int) | No | NullPointer

  /** The index that starts with a field, by field position.  `asWritten`: BETWEEN casts its lower bound to a
      field where its child is meant, and goes through the null pointer that gives for a constant
      (ExprLogic.h:301-310). */
  datatype FirstFields = FirstFields(pos: map<nat, nat>, asWritten: bool)

  function FieldIndex(d: Data, fields: FirstFields): Pick {
    if d.Field? && d.rowPos in fields.pos then Yes(fields.pos[d.rowPos]) else No
  }

  /** ExprComp::Reverse: operands and comparison are turned around. */
  function Reverse(e: Logic): Logic
    requires e.Comp?
  {
    var t := match e.compType
      case EQ => EQ
      case GT => LT
      case GE => LE
      case LT => GT
      case LE => GE
      case NE => NE;
    Comp(t, e.right, e.left)
  }

  predicate Backwards(e: Logic) {
    e.Comp? && e.right.Field? && IsConstValue(e.left)
  }

  /** Which index the condition can use. */
  function Index(e: Logic, fields: FirstFields): Pick {
    match e
    case Comp(_, l, r) =>
      if Backwards(e) then FieldIndex(r, fields)
      else if IsConstValue(r) then FieldIndex(l, fields) else No
    case InNot(d, _, bIn) => if bIn then FieldIndex(d, fields) else No
    case Between(c, l, h) =>
      if !c.Field? || !IsConstValue(l) || !IsConstValue(h) then No
      else if fields.asWritten then NullPointer else FieldIndex(c, fields)
    case And(cs) => if exists i :: 0 <= i < |cs| && !cs[i].And? && Index(cs[i], fields) != No then NullPointer else No
    case Or(cs) => OrIndex(cs, fields, -1)
    case _ => No
  }

  /** All alternatives have to use the same index. */
  function OrIndex(cs: seq<Logic>, fields: FirstFields, idxPos: int): Pick {
    if cs == [] then Yes(idxPos)
    else
      var p := Index(cs[0], fields);
      if !p.Yes? then p
      else if idxPos != -1 && idxPos != p.idxPos then No
      else OrIndex(cs[1..], fields, p.idxPos)
  }

  /** The condition as PickIndexCondition leaves it: comparisons with a constant on the left are turned
      around on the way, whether or not the search succeeds in the end. */
  function Turned(e: Logic, fields: FirstFields): Logic {
    match e
    case Comp(_, _, _) => if Backwards(e) then Reverse(e) else e
    case And(cs) => And(seq(|cs|, i requires 0 <= i < |cs| => if cs[i].And? then cs[i] else Turned(cs[i], fields)))
    case Or(cs) => Or(OrTurned(cs, fields, -1))
    case _ => e
  }

  function OrTurned(cs: seq<Logic>, fields: FirstFields, idxPos: int): (r: seq<Logic>)
    ensures |r| == |cs|
  {
    if cs == [] then []
    else
      var p := Index(cs[0], fields);
      if !p.Yes? || (idxPos != -1 && idxPos != p.idxPos) then [Turned(cs[0], fields)] + cs[1..]
      else [Turned(cs[0], fields)] + OrTurned(cs[1..], fields, p.idxPos)
  }

  // ---------- turning changes no result ----------

  lemma ReverseSame(e: Logic, env: Env)
    requires e.Comp?
    ensures Calc(Reverse(e), env) == Calc(e, env)
  {
  }

  /** For every condition, row and parameters. */
  lemma {:induction false} TurnedSame(e: Logic, fields: FirstFields, env: Env)
    ensures Calc(Turned(e, fields), env) == Calc(e, env)
    decreases e, 0
  {
    match e
    case Comp(_, _, _) => if Backwards(e) { ReverseSame(e, env); }
    case And(cs) =>
      var ds := Turned(e, fields).vctChild;
      forall i | 0 <= i < |cs| ensures Calc(ds[i], env) == Calc(cs[i], env) {
        if !cs[i].And? { TurnedSame(cs[i], fields, env); }
      }
      AndSame(cs, ds, env);
    case Or(cs) => OrTurnedSame(cs, fields, -1, env);
    case _ =>
  }

  lemma {:induction false} AndSame(cs: seq<Logic>, ds: seq<Logic>, env: Env)
    requires |cs| == |ds| && forall i :: 0 <= i < |cs| ==> Calc(ds[i], env) == Calc(cs[i], env)
    ensures CalcAnd(ds, env) == CalcAnd(cs, env)
  {
    if cs != [] { AndSame(cs[1..], ds[1..], env); }
  }

  lemma {:induction false} OrTurnedSame(cs: seq<Logic>, fields: FirstFields, idxPos: int, env: Env)
    ensures CalcOr(OrTurned(cs, fields, idxPos), env) == CalcOr(cs, env)
    decreases cs, 1
  {
    if cs != [] {
      TurnedSame(cs[0], fields, env);
      var p := Index(cs[0], fields);
      if p.Yes? { OrTurnedSame(cs[1..], fields, p.idxPos, env); }
    }
  }

  // ---------- what Index means ----------

  /** Every OR has an alternative. */
  predicate Formed(e: Logic) {
    match e
    case Not(c) => Formed(c)
    case And(cs) => forall i :: 0 <= i < |cs| ==> Formed(cs[i])
    case Or(cs) => cs != [] && forall i :: 0 <= i < |cs| ==> Formed(cs[i])
    case _ => true
  }

  predicate FieldAt(d: Data, fields: FirstFields, x: int) {
    d.Field? && d.rowPos in fields.pos && fields.pos[d.rowPos] == x
  }

  /** The condition can use index x: it compares a field the index starts with to constants, or all its
      alternatives can. */
  predicate Uses(e: Logic, fields: FirstFields, x: int) {
    match e
    case Comp(_, l, r) => (IsConstValue(r) && FieldAt(l, fields, x)) || (IsConstValue(l) && FieldAt(r, fields, x))
    case InNot(d, _, bIn) => bIn && FieldAt(d, fields, x)
    case Between(c, l, h) => !fields.asWritten && IsConstValue(l) && IsConstValue(h) && FieldAt(c, fields, x)
    case Or(cs) => forall i :: 0 <= i < |cs| ==> Uses(cs[i], fields, x)
    case _ => false
  }

  ghost predicate AllUseTo(cs: seq<Logic>, i: nat, fields: FirstFields, x: int)
    requires i <= |cs|
  {
    forall j :: 0 <= j < i ==> Uses(cs[j], fields, x)
  }

  /** The search goes through a null pointer: at a BETWEEN as written, in an AND that holds a condition on an
      index, or in an alternative of an OR when all alternatives before it use one index. */
  ghost predicate GoesNull(e: Logic, fields: FirstFields) {
    match e
    case Between(c, l, h) => fields.asWritten && c.Field? && IsConstValue(l) && IsConstValue(h)
    case And(cs) =>
      exists i :: 0 <= i < |cs| && !cs[i].And? && (GoesNull(cs[i], fields) || exists x :: Uses(cs[i], fields, x))
    case Or(cs) => exists i :: 0 <= i < |cs| && GoesNull(cs[i], fields) && exists x :: AllUseTo(cs, i, fields, x)
    case _ => false
  }

  /** The index found is the one the condition can use, and there is at most one. */
  lemma {:induction false} IndexMeans(e: Logic, fields: FirstFields, x: int)
    requires Formed(e)
    ensures Index(e, fields) == Yes(x) <==> Uses(e, fields, x)
    ensures Uses(e, fields, x) ==> x >= 0
    decreases e, 0
  {
    if e.Or? { OrIndexMeans(e.vctChild, fields, -1, x); }
  }

  lemma {:induction false} OrIndexMeans(cs: seq<Logic>, fields: FirstFields, idxPos: int, x: int)
    requires (forall i :: 0 <= i < |cs| ==> Formed(cs[i])) && idxPos >= -1
    ensures OrIndex(cs, fields, idxPos) == Yes(x)
            <==> (forall i :: 0 <= i < |cs| ==> Uses(cs[i], fields, x)) && (idxPos != -1 || cs == [] ==> x == idxPos)
    ensures cs != [] && (forall i :: 0 <= i < |cs| ==> Uses(cs[i], fields, x)) ==> x >= 0
    decreases cs, 1
  {
    hide Index, Uses, Formed;
    if cs != [] {
      IndexMeans(cs[0], fields, x);
      assert (forall i :: 0 <= i < |cs| ==> Uses(cs[i], fields, x))
        <==> Uses(cs[0], fields, x) && forall i :: 0 <= i < |cs[1..]| ==> Uses(cs[1..][i], fields, x)
        by { AllOrRest(cs, fields, x); }
      var p := Index(cs[0], fields);
      if p.Yes? {
        IndexMeans(cs[0], fields, p.idxPos);
        OrIndexMeans(cs[1..], fields, p.idxPos, x);
      }
    }
  }

  lemma AllOrRest(cs: seq<Logic>, fields: FirstFields, x: int)
    requires cs != []
    ensures (forall i :: 0 <= i < |cs| ==> Uses(cs[i], fields, x))
            <==> Uses(cs[0], fields, x) && forall i :: 0 <= i < |cs[1..]| ==> Uses(cs[1..][i], fields, x)
  {
    hide Uses;
    if Uses(cs[0], fields, x) && forall i :: 0 <= i < |cs[1..]| ==> Uses(cs[1..][i], fields, x) {
      forall i | 0 <= i < |cs| ensures Uses(cs[i], fields, x) {
        if i > 0 { assert cs[1..][i - 1] == cs[i]; }
      }
    }
  }

  /** Exactly these conditions take the search through a null pointer. */
  lemma {:induction false} NullIff(e: Logic, fields: FirstFields)
    requires Formed(e)
    ensures Index(e, fields) == NullPointer <==> GoesNull(e, fields)
    decreases e, 0
  {
    match e
    case And(cs) =>
      forall i | 0 <= i < |cs|
        ensures Index(cs[i], fields) != No <==> GoesNull(cs[i], fields) || exists x :: Uses(cs[i], fields, x)
      {
        NullIff(cs[i], fields);
        UsableIff(cs[i], fields);
      }
    case Or(cs) =>
      OrNullIff(cs, fields, -1);
      OrGoesNull(cs, fields);
    case _ =>
  }

  lemma OrGoesNull(cs: seq<Logic>, fields: FirstFields)
    ensures GoesNull(Or(cs), fields) <==> exists i, x :: NullInConjunct(cs, fields, -1, i, x)
  {
    if GoesNull(Or(cs), fields) {
      var i :| 0 <= i < |cs| && GoesNull(cs[i], fields) && exists x :: AllUseTo(cs, i, fields, x);
      var x :| AllUseTo(cs, i, fields, x);
      assert NullInConjunct(cs, fields, -1, i, x);
    }
    if i, x :| NullInConjunct(cs, fields, -1, i, x) {
      assert AllUseTo(cs, i, fields, x);
    }
  }

  lemma UsableIff(e: Logic, fields: FirstFields)
    requires Formed(e)
    ensures Index(e, fields).Yes? <==> exists x :: Uses(e, fields, x)
    ensures Index(e, fields).Yes? ==> Uses(e, fields, Index(e, fields).idxPos) && Index(e, fields).idxPos >= 0
  {
    hide Index, Uses, Formed;
    if Index(e, fields).Yes? { IndexMeans(e, fields, Index(e, fields).idxPos); }
    if x :| Uses(e, fields, x) { IndexMeans(e, fields, x); }
  }

  ghost predicate NullInConjunct(cs: seq<Logic>, fields: FirstFields, idxPos: int, i: nat, x: int) {
    i < |cs| && GoesNull(cs[i], fields) && AllUseTo(cs, i, fields, x) && (idxPos != -1 ==> x == idxPos)
  }

  lemma {:induction false} OrNullIff(cs: seq<Logic>, fields: FirstFields, idxPos: int)
    requires (forall i :: 0 <= i < |cs| ==> Formed(cs[i])) && idxPos >= -1
    ensures OrIndex(cs, fields, idxPos) == NullPointer <==> exists i, x :: NullInConjunct(cs, fields, idxPos, i, x)
    decreases cs, 1
  {
    hide Index, Uses, Formed, GoesNull;
    if cs != [] {
      NullIff(cs[0], fields);
      UsableIff(cs[0], fields);
      var p := Index(cs[0], fields);
      if p == NullPointer { assert NullInConjunct(cs, fields, idxPos, 0, idxPos); }
      var on := p.Yes? && (idxPos == -1 || idxPos == p.idxPos);
      if on {
        OrNullIff(cs[1..], fields, p.idxPos);
        assert OrIndex(cs, fields, idxPos) == OrIndex(cs[1..], fields, p.idxPos);
        if OrIndex(cs[1..], fields, p.idxPos) == NullPointer {
          var i, x :| NullInConjunct(cs[1..], fields, p.idxPos, i, x);
          NullLater(cs, fields, idxPos, i, x);
        }
      }
      if i, x :| NullInConjunct(cs, fields, idxPos, i, x) {
        if i > 0 {
          assert Uses(cs[0], fields, x);
          IndexMeans(cs[0], fields, x);
          NullEarlier(cs, fields, idxPos, i, x);
        }
      }
    }
  }

  lemma NullLater(cs: seq<Logic>, fields: FirstFields, idxPos: int, i: nat, x: int)
    requires cs != [] && NullInConjunct(cs[1..], fields, x, i, x) && Uses(cs[0], fields, x) &&
        (idxPos != -1 ==> x == idxPos)
    ensures NullInConjunct(cs, fields, idxPos, i + 1, x)
  {
    hide Uses, GoesNull;
    forall j | 0 <= j < i + 1 ensures Uses(cs[j], fields, x) {
      if j > 0 { assert cs[1..][j - 1] == cs[j]; }
    }
    assert cs[1..][i] == cs[i + 1];
  }

  lemma NullEarlier(cs: seq<Logic>, fields: FirstFields, idxPos: int, i: nat, x: int)
    requires NullInConjunct(cs, fields, idxPos, i, x) && i > 0
    ensures NullInConjunct(cs[1..], fields, x, i - 1, x)
  {
    hide Uses, GoesNull;
    forall j | 0 <= j < i - 1 ensures Uses(cs[1..][j], fields, x) { assert cs[1..][j] == cs[j + 1]; }
    assert cs[1..][i - 1] == cs[i];
  }

  // ---------- the search below the top ----------

  /** PickIndexCondition of a condition that is not at the top: it reports the index and leaves the turned
      condition behind. */
  method PickIndexCondition(e: Logic, fields: FirstFields) returns (e': Logic, p: Pick)
    ensures p == Index(e, fields) && (p != NullPointer ==> e' == Turned(e, fields))
    decreases e, 0
  {
    e' := e;
    match e
    case Comp(_, _, _) =>
      if Backwards(e) {
        e' := Reverse(e);
      }
      p := if e'.left.Field? && IsConstValue(e'.right) then FieldIndex(e'.left, fields) else No;
    case And(cs) =>
      var ds;
      ds, p := PickNested(cs, fields);
      e' := And(ds);
    case Or(cs) =>
      var ds;
      ds, p := PickOr(cs, fields);
      e' := Or(ds);
    case _ =>
      p := Index(e, fields);
  }

  /** An AND below another node has nowhere to put the conditions it finds. */
  method PickNested(cs: seq<Logic>, fields: FirstFields) returns (ds: seq<Logic>, p: Pick)
    ensures p == Index(And(cs), fields)
    ensures p != NullPointer ==>
        ds == seq(|cs|, i requires 0 <= i < |cs| => if cs[i].And? then cs[i] else Turned(cs[i], fields))
    decreases cs, 1
  {
    ds := [];
    while |ds| < |cs|
      invariant |ds| <= |cs|
      invariant forall j :: 0 <= j < |ds| ==> ds[j] == if cs[j].And? then cs[j] else Turned(cs[j], fields)
      invariant forall j :: 0 <= j < |ds| && !cs[j].And? ==> Index(cs[j], fields) == No
    {
      var d := cs[|ds|];
      if !d.And? {
        d, p := PickIndexCondition(d, fields);
        if p != No {
          return ds, NullPointer;
        }
      }
      ds := ds + [d];
    }
    p := No;
  }

  method PickOr(cs: seq<Logic>, fields: FirstFields) returns (ds: seq<Logic>, p: Pick)
    ensures p == OrIndex(cs, fields, -1) && (p != NullPointer ==> ds == OrTurned(cs, fields, -1))
    decreases cs, 1
  {
    hide OrIndex, OrTurned, Index, Turned;
    var idxPos, i := -1, 0;
    ds := cs;
    while i < |cs|
      invariant 0 <= i <= |cs| && |ds| == |cs| && ds[i..] == cs[i..]
      invariant OrIndex(cs, fields, -1) == OrIndex(cs[i..], fields, idxPos)
      invariant OrTurned(cs, fields, -1) == ds[..i] + OrTurned(cs[i..], fields, idxPos)
    {
      OrStep(cs, i, fields, idxPos);
      var d, b := PickIndexCondition(cs[i], fields);
      if b == NullPointer {
        return ds, b;
      }
      ds := ds[i := d];
      assert ds == ds[..i] + ([d] + cs[i + 1..]);
      if !b.Yes? {
        return ds, b;
      }
      if idxPos == -1 {
        idxPos := b.idxPos;
      } else if idxPos != b.idxPos {
        return ds, No;
      }
      i := i + 1;
      assert ds[..i] == ds[..i - 1] + [d];
    }
    p := Yes(idxPos);
    OrEnd(cs, fields, idxPos);
    assert ds[..i] == ds && ds + [] == ds;
  }

  lemma OrStep(cs: seq<Logic>, i: nat, fields: FirstFields, idxPos: int)
    requires i < |cs|
    ensures var p := Index(cs[i], fields); var d := Turned(cs[i], fields);
      if !p.Yes? then OrIndex(cs[i..], fields, idxPos) == p && OrTurned(cs[i..], fields, idxPos) == [d] + cs[i + 1..]
      else if idxPos != -1 && idxPos != p.idxPos then OrIndex(cs[i..], fields, idxPos) == No &&
          OrTurned(cs[i..], fields, idxPos) == [d] + cs[i + 1..]
      else OrIndex(cs[i..], fields, idxPos) == OrIndex(cs[i + 1..], fields, p.idxPos)
           && OrTurned(cs[i..], fields, idxPos) == [d] + OrTurned(cs[i + 1..], fields, p.idxPos)
  {
    assert cs[i..][0] == cs[i] && cs[i..][1..] == cs[i + 1..];
  }

  lemma OrEnd(cs: seq<Logic>, fields: FirstFields, idxPos: int)
    ensures OrIndex(cs[|cs|..], fields, idxPos) == Yes(idxPos) && OrTurned(cs[|cs|..], fields, idxPos) == []
  {
  }

  // ---------- the search in an AND at the top ----------

  /** The scan of the conjuncts does not go through a null pointer.  `best` is the index found so far; an OR that
      could be taken ends the scan. */
  predicate ScanSafe(cs: seq<Logic>, fields: FirstFields, best: Option<int>) {
    if cs == [] then true
    else if cs[0].And? then ScanSafe(cs[1..], fields, best)
    else match Index(cs[0], fields)
      case NullPointer => false
      case No => ScanSafe(cs[1..], fields, best)
      case Yes(x) =>
        if best.Some? && best.value < x then ScanSafe(cs[1..], fields, best)
        else cs[0].Or? || ScanSafe(cs[1..], fields, Some(x))
  }

  /** The scan ends at conjunct j: an OR that can use an index no conjunct before it undercuts. */
  ghost predicate EndsScan(cs: seq<Logic>, j: nat, fields: FirstFields)
    requires j < |cs|
  {
    cs[j].Or? && exists x :: Uses(cs[j], fields, x) && NoLower(cs, j, fields, x)
  }

  ghost predicate NoLower(cs: seq<Logic>, j: nat, fields: FirstFields, x: int)
    requires j <= |cs|
  {
    forall k, y :: 0 <= k < j && !cs[k].And? && Uses(cs[k], fields, y) ==> x <= y
  }

  ghost predicate NullBefore(cs: seq<Logic>, i: nat, fields: FirstFields)
    requires i < |cs|
  {
    !cs[i].And? && GoesNull(cs[i], fields) && forall j :: 0 <= j < i ==> !EndsScan(cs, j, fields)
  }

  /** The scan is safe exactly when it ends before every conjunct that would take it through a null pointer. */
  lemma ScanSafeIff(cs: seq<Logic>, fields: FirstFields)
    requires forall i :: 0 <= i < |cs| ==> Formed(cs[i])
    ensures ScanSafe(cs, fields, None) <==> forall i :: 0 <= i < |cs| ==> !NullBefore(cs, i, fields)
  {
    hide Formed, Uses, GoesNull, Index, ScanSafe, NullBefore, EndsScan;
    assert cs[0..] == cs;
    ScanSafeFrom(cs, 0, fields, None);
  }

  /** `best` is the lowest index a conjunct before i can use. */
  ghost predicate BestBefore(cs: seq<Logic>, i: nat, fields: FirstFields, best: Option<int>)
    requires i <= |cs|
  {
    && (best.Some? ==> NoLower(cs, i, fields, best.value)
                       && exists k :: 0 <= k < i && !cs[k].And? && Uses(cs[k], fields, best.value))
    && (best.None? ==> forall k, y :: 0 <= k < i && !cs[k].And? ==> !Uses(cs[k], fields, y))
  }

  lemma {:induction false} ScanSafeFrom(cs: seq<Logic>, i: nat, fields: FirstFields, best: Option<int>)
    requires i <= |cs| && (forall k :: 0 <= k < |cs| ==> Formed(cs[k])) && BestBefore(cs, i, fields, best)
    requires forall j :: 0 <= j < i ==> !EndsScan(cs, j, fields) && !NullBefore(cs, j, fields)
    ensures ScanSafe(cs[i..], fields, best) <==> forall k :: i <= k < |cs| ==> !NullBefore(cs, k, fields)
    decreases |cs| - i
  {
    hide Formed, Uses, GoesNull, Index, EndsScan, NullBefore, BestBefore;
    if i < |cs| {
      assert cs[i..][0] == cs[i] && cs[i..][1..] == cs[i + 1..];
      ScanTurn(cs, i, fields, best);
      if !NullBefore(cs, i, fields) && !EndsScan(cs, i, fields) {
        ScanSafeFrom(cs, i + 1, fields, NextBest(cs[i], fields, best));
      } else if EndsScan(cs, i, fields) && !NullBefore(cs, i, fields) {
        forall k | i <= k < |cs| ensures !NullBefore(cs, k, fields) { ScanPastEnd(cs, i, k, fields); }
      }
    }
  }

  function NextBest(c: Logic, fields: FirstFields, best: Option<int>): Option<int> {
    if c.And? || !Index(c, fields).Yes? || (best.Some? && best.value < Index(c, fields).idxPos) then best
    else Some(Index(c, fields).idxPos)
  }

  lemma ScanPastEnd(cs: seq<Logic>, i: nat, k: nat, fields: FirstFields)
    requires i <= k < |cs| && EndsScan(cs, i, fields) && !NullBefore(cs, i, fields)
    ensures !NullBefore(cs, k, fields)
  {
    hide EndsScan, GoesNull;
  }

  /** One turn of the scan. */
  lemma ScanTurn(cs: seq<Logic>, i: nat, fields: FirstFields, best: Option<int>)
    requires i < |cs| && Formed(cs[i]) && BestBefore(cs, i, fields, best)
    requires forall j :: 0 <= j < i ==> !EndsScan(cs, j, fields)
    ensures NullBefore(cs, i, fields) <==> !cs[i].And? && Index(cs[i], fields) == NullPointer
    ensures EndsScan(cs, i, fields)
            <==> cs[i].Or? && Index(cs[i], fields).Yes? && !(best.Some? && best.value < Index(cs[i], fields).idxPos)
    ensures BestBefore(cs, i + 1, fields, NextBest(cs[i], fields, best))
  {
    hide Formed, Uses, GoesNull, Index;
    NullIff(cs[i], fields);
    UsableIff(cs[i], fields);
    forall y | Uses(cs[i], fields, y) ensures Index(cs[i], fields) == Yes(y) { IndexMeans(cs[i], fields, y); }
    if Index(cs[i], fields).Yes? {
      var x := Index(cs[i], fields).idxPos;
      assert NoLower(cs, i, fields, x) <==> !(best.Some? && best.value < x);
    }
  }

  /** Conjunct d is conjunct c, perhaps turned. */
  predicate SameConjunct(c: Logic, d: Logic, fields: FirstFields) {
    d == c || d == Turned(c, fields)
  }

  predicate SameConjuncts(cs: seq<Logic>, ds: seq<Logic>, fields: FirstFields) {
    |cs| == |ds| && forall i :: 0 <= i < |cs| ==> SameConjunct(cs[i], ds[i], fields)
  }

  /** The conjuncts at these positions can use the index. */
  predicate UseIndex(cs: seq<Logic>, at: seq<nat>, fields: FirstFields, idxPos: int) {
    && (forall k :: 0 <= k < |at| ==> at[k] < |cs| && !cs[at[k]].And? && Index(cs[at[k]], fields) == Yes(idxPos))
    && (forall k, m :: 0 <= k < m < |at| ==> at[k] < at[m])
  }

  /** After the first i conjuncts: the positions found use the index idxPos, and no conjunct seen uses a
      lower one. */
  predicate Scanned(cs: seq<Logic>, i: nat, fields: FirstFields, at: seq<nat>, idxPos: int)
    requires i <= |cs|
  {
    && UseIndex(cs, at, fields, idxPos) && (forall k :: 0 <= k < |at| ==> at[k] < i)
    && forall j :: 0 <= j < i && !cs[j].And? ==> SeenOk(Index(cs[j], fields), j, at, idxPos)
  }

  predicate SeenOk(p: Pick, j: nat, at: seq<nat>, idxPos: int) {
    match p
    case No => true
    case Yes(x) => at != [] && idxPos <= x && (x == idxPos ==> j in at)
    case NullPointer => false
  }

  function Best(at: seq<nat>, idxPos: int): Option<int> {
    if at == [] then None else Some(idxPos)
  }

  /** The positions that stay when index x is met. */
  function Beaten(at: seq<nat>, idxPos: int, x: int): seq<nat> {
    if at != [] && idxPos > x then [] else at
  }

  lemma ScanStep(cs: seq<Logic>, i: nat, fields: FirstFields, at: seq<nat>, idxPos: int)
    requires i < |cs| && Scanned(cs, i, fields, at, idxPos)
    ensures var p := Index(cs[i], fields); var safe := ScanSafe(cs[i..], fields, Best(at, idxPos));
      if !cs[i].And? && p == NullPointer then !safe
      else if cs[i].And? || p == No || (p.Yes? && at != [] && idxPos < p.idxPos)
      then Scanned(cs, i + 1, fields, at, idxPos) && (safe <==> ScanSafe(cs[i + 1..], fields, Best(at, idxPos)))
      else p.Yes?
           && (at == [] ==> UseIndex(cs, [i], fields, p.idxPos))
           && (if cs[i].Or? then safe else safe <==> ScanSafe(cs[i + 1..], fields, Some(p.idxPos)))
  {
    assert cs[i..][0] == cs[i] && cs[i..][1..] == cs[i + 1..];
  }

  lemma ScanTake(cs: seq<Logic>, i: nat, fields: FirstFields, at: seq<nat>, idxPos: int, x: int)
    requires i < |cs| && Scanned(cs, i, fields, at, idxPos) && !cs[i].And? && Index(cs[i], fields) == Yes(x)
    requires at == [] || idxPos >= x
    ensures Scanned(cs, i + 1, fields, Beaten(at, idxPos, x) + [i], x)
    ensures Beaten(at, idxPos, x) != [] ==> idxPos == x
    ensures Beaten(at, idxPos, x) == [] ==> UseIndex(cs, [i], fields, x)
  {
    hide Index, SeenOk;
    var at' := Beaten(at, idxPos, x) + [i];
    UseStep(cs, i, fields, at, idxPos, x);
    hide UseIndex, Beaten;
    forall j | 0 <= j < i + 1 && !cs[j].And? ensures SeenOk(Index(cs[j], fields), j, at', x) {
      if j < i { assert SeenOk(Index(cs[j], fields), j, at, idxPos); }
      SeenStep(Index(cs[j], fields), j, at, idxPos, i, x);
    }
  }

  lemma UseStep(cs: seq<Logic>, i: nat, fields: FirstFields, at: seq<nat>, idxPos: int, x: int)
    requires i < |cs| && UseIndex(cs, at, fields, idxPos) && (forall k :: 0 <= k < |at| ==> at[k] < i)
    requires !cs[i].And? && Index(cs[i], fields) == Yes(x) && (at == [] || idxPos >= x)
    ensures var at' := Beaten(at, idxPos, x) + [i];
      UseIndex(cs, at', fields, x) && (forall k :: 0 <= k < |at'| ==> at'[k] < i + 1)
    ensures Beaten(at, idxPos, x) != [] ==> idxPos == x
    ensures UseIndex(cs, [i], fields, x)
  {
    hide Index;
    var u := Beaten(at, idxPos, x);
    assert forall k :: 0 <= k < |u| ==> u[k] < i && !cs[u[k]].And? && Index(cs[u[k]], fields) == Yes(x);
    assert forall k, m :: 0 <= k < m < |u| ==> u[k] < u[m];
  }

  lemma SeenStep(p: Pick, j: nat, at: seq<nat>, idxPos: int, i: nat, x: int)
    requires (j < i && SeenOk(p, j, at, idxPos)) || (j == i && p == Yes(x))
    requires (at == [] || idxPos >= x) && forall k :: 0 <= k < |at| ==> at[k] < i
    ensures SeenOk(p, j, Beaten(at, idxPos, x) + [i], x)
  {
    var at' := Beaten(at, idxPos, x) + [i];
    assert at'[|at'| - 1] == i;
  }

  predicate UsesAny(c: Logic, fields: FirstFields) {
    !c.And? && Index(c, fields).Yes?
  }

  /** Conjunct j is an OR that can use an index no conjunct before it undercuts: it ends the scan. */
  predicate EndsHere(cs: seq<Logic>, j: nat, fields: FirstFields)
    requires j < |cs|
  {
    && cs[j].Or? && UsesAny(cs[j], fields)
    && forall k :: 0 <= k < j && UsesAny(cs[k], fields) ==>
         Index(cs[j], fields).idxPos <= Index(cs[k], fields).idxPos
  }

  predicate UsedBefore(cs: seq<Logic>, n: nat, fields: FirstFields, x: int)
    requires n <= |cs|
  {
    exists k :: 0 <= k < n && !cs[k].And? && Index(cs[k], fields) == Yes(x)
  }

  /** What the scan has found when it ends at the first OR that ends it, or behind the last conjunct (n): all
      conjuncts before that use the lowest index, and the OR only if it alone uses that index. */
  predicate ScanEnd(cs: seq<Logic>, n: nat, fields: FirstFields, at: seq<nat>, idxPos: int)
    requires n <= |cs|
  {
    && (forall j :: 0 <= j < n ==> !EndsHere(cs, j, fields))
    && (n < |cs| ==> EndsHere(cs, n, fields) && idxPos == Index(cs[n], fields).idxPos)
    && if n < |cs| && !UsedBefore(cs, n, fields, idxPos) then at == [n] else Scanned(cs, n, fields, at, idxPos)
  }

  /** The conjuncts the scan has come to are turned. */
  predicate TurnedTo(cs: seq<Logic>, ds: seq<Logic>, n: nat, fields: FirstFields) {
    && |ds| == |cs|
    && forall j :: 0 <= j < |cs| ==> ds[j] == if j <= n && !cs[j].And? then Turned(cs[j], fields) else cs[j]
  }

  /** On well-formed conditions the scan ends where the shape of the conjuncts says. */
  lemma EndsHereIff(cs: seq<Logic>, j: nat, fields: FirstFields)
    requires j < |cs| && forall i :: 0 <= i < |cs| ==> Formed(cs[i])
    ensures EndsHere(cs, j, fields) <==> EndsScan(cs, j, fields)
  {
    hide Index, Uses, Formed;
    forall k, x | 0 <= k < |cs|
      ensures Uses(cs[k], fields, x) <==> Index(cs[k], fields).Yes? && Index(cs[k], fields).idxPos == x
    {
      IndexMeans(cs[k], fields, x);
    }
    if EndsHere(cs, j, fields) {
      var x := Index(cs[j], fields).idxPos;
      assert Uses(cs[j], fields, x) && NoLower(cs, j, fields, x);
    }
    if EndsScan(cs, j, fields) {
      var x :| Uses(cs[j], fields, x) && NoLower(cs, j, fields, x);
      forall k | 0 <= k < j && UsesAny(cs[k], fields) ensures x <= Index(cs[k], fields).idxPos {
        assert Uses(cs[k], fields, Index(cs[k], fields).idxPos);
      }
    }
  }

  /** The scan goes on behind conjunct i, or ends there. */
  lemma ScanOn(cs: seq<Logic>, i: nat, fields: FirstFields, at: seq<nat>, idxPos: int)
    requires i < |cs| && Scanned(cs, i, fields, at, idxPos) && !(!cs[i].And? && Index(cs[i], fields) == NullPointer)
    ensures EndsHere(cs, i, fields) <==>
            cs[i].Or? && UsesAny(cs[i], fields) && (at == [] || idxPos >= Index(cs[i], fields).idxPos)
    ensures var x := if UsesAny(cs[i], fields) then Index(cs[i], fields).idxPos else 0;
      EndsHere(cs, i, fields) ==> (UsedBefore(cs, i, fields, x) <==> at != [] && idxPos == x)
  {
    hide Index;
    if at != [] { assert at[0] < i && Index(cs[at[0]], fields) == Yes(idxPos); }
    forall k | 0 <= k < i && UsesAny(cs[k], fields) ensures at != [] && idxPos <= Index(cs[k], fields).idxPos {
      assert SeenOk(Index(cs[k], fields), k, at, idxPos);
    }
  }

  /** Nothing found means that nothing can be used. */
  lemma NothingFound(cs: seq<Logic>, n: nat, fields: FirstFields, at: seq<nat>, idxPos: int)
    requires n <= |cs| && ScanEnd(cs, n, fields, at, idxPos) && at == []
    ensures n == |cs| && forall i :: 0 <= i < |cs| && !cs[i].And? ==> Index(cs[i], fields) == No
  {
    hide Index;
    assert Scanned(cs, n, fields, at, idxPos);
    assert forall k :: 0 <= k < n && !cs[k].And? ==> SeenOk(Index(cs[k], fields), k, at, idxPos);
    ScannedUse(cs, n, fields, at, idxPos);
  }

  /** The loop over the conjuncts: the positions of those that use the lowest index met before the scan ends (n). */
  method ScanAnd(cs: seq<Logic>, fields: FirstFields)
    returns (isNull: bool, ds: seq<Logic>, vctIL: seq<nat>, idxPos: int, ghost n: nat)
    ensures isNull <==> !ScanSafe(cs, fields, None)
    ensures SameConjuncts(cs, ds, fields) && UseIndex(cs, vctIL, fields, idxPos)
    ensures !isNull ==> n <= |cs| && ScanEnd(cs, n, fields, vctIL, idxPos) && TurnedTo(cs, ds, n, fields)
  {
    hide Index, Turned, ScanSafe, Scanned, UseIndex, SameConjunct, EndsHere, UsedBefore, UsesAny;
    isNull, ds, vctIL, idxPos, n := false, cs, [], -1, 0;
    var i := 0;
    ScanStart(cs, fields);
    while i < |cs|
      invariant 0 <= i <= |cs| && |ds| == |cs|
      invariant forall j :: 0 <= j < |cs| ==> SameConjunct(cs[j], ds[j], fields)
      invariant forall j :: 0 <= j < |cs| ==> ds[j] == if j < i && !cs[j].And? then Turned(cs[j], fields) else cs[j]
      invariant ScanSafe(cs, fields, None) <==> ScanSafe(cs[i..], fields, Best(vctIL, idxPos))
      invariant Scanned(cs, i, fields, vctIL, idxPos)
      invariant forall j :: 0 <= j < i ==> !EndsHere(cs, j, fields)
    {
      n := i;
      ScanStep(cs, i, fields, vctIL, idxPos);
      AbleIff(cs[i], fields);
      if cs[i].And? || Index(cs[i], fields) != NullPointer { ScanOn(cs, i, fields, vctIL, idxPos); }
      if !cs[i].And? {
        var d, b := PickIndexCondition(cs[i], fields);
        if b == NullPointer {
          ScannedUse(cs, i, fields, vctIL, idxPos);
          isNull := true;
          return;
        }
        TurnedConjunct(cs[i], fields);
        ds := ds[i := d];
        if b.Yes? && (vctIL == [] || idxPos >= b.idxPos) {
          ScanTake(cs, i, fields, vctIL, idxPos, b.idxPos);
          if vctIL != [] && idxPos > b.idxPos {
            vctIL := [];
          }
          if cs[i].Or? {
            if vctIL == [] {
              vctIL, idxPos := [i], b.idxPos;
            } else {
              ScannedUse(cs, i, fields, vctIL, idxPos);
            }
            return;
          }
          vctIL, idxPos := vctIL + [i], b.idxPos;
        }
      }
      i := i + 1;
    }
    n := |cs|;
    ScannedUse(cs, i, fields, vctIL, idxPos);
    ScanDone(cs, fields, Best(vctIL, idxPos));
  }

  lemma AbleIff(c: Logic, fields: FirstFields)
    ensures UsesAny(c, fields) <==> !c.And? && Index(c, fields).Yes?
  {
  }

  lemma ScanDone(cs: seq<Logic>, fields: FirstFields, best: Option<int>)
    ensures ScanSafe(cs[|cs|..], fields, best)
  {
  }

  lemma ScanStart(cs: seq<Logic>, fields: FirstFields)
    ensures Scanned(cs, 0, fields, [], -1) && cs[0..] == cs
    ensures forall j :: 0 <= j < |cs| ==> SameConjunct(cs[j], cs[j], fields)
  {
  }

  lemma TurnedConjunct(c: Logic, fields: FirstFields)
    ensures SameConjunct(c, Turned(c, fields), fields)
  {
  }

  lemma ScannedUse(cs: seq<Logic>, i: nat, fields: FirstFields, at: seq<nat>, idxPos: int)
    requires i <= |cs| && Scanned(cs, i, fields, at, idxPos)
    ensures UseIndex(cs, at, fields, idxPos)
    ensures at == [] ==> forall j :: 0 <= j < i && !cs[j].And? ==> Index(cs[j], fields) == No
  {
    hide Index;
    if at == [] {
      forall j | 0 <= j < i && !cs[j].And? ensures Index(cs[j], fields) == No {
        assert SeenOk(Index(cs[j], fields), j, at, idxPos);
      }
    }
  }

  function ConjunctsLeft(s: seq<Logic>, i: nat): seq<Logic>
    requires i < |s|
  {
    s[..i] + s[i + 1..]
  }

  lemma TakenOut(s: seq<Logic>, i: nat)
    requires i < |s|
    ensures multiset(s) == multiset(ConjunctsLeft(s, i)) + multiset{s[i]}
    ensures ConjunctsLeft(s, i)[..i] == s[..i]
  {
    assert s == s[..i] + [s[i]] + s[i + 1..];
  }

  /** Each of these conjuncts is one of the conjuncts cs that can use the index. */
  ghost predicate AllUse(cs: seq<Logic>, us: seq<Logic>, fields: FirstFields, idxPos: int) {
    forall d :: d in us ==> exists c {:trigger SameConjunct(c, d, fields)} ::
      c in cs && !c.And? && SameConjunct(c, d, fields) && Index(c, fields) == Yes(idxPos)
  }

  /** ExprAnd::PickIndexCondition: the conjuncts that use the index leave the AND, last one first. */
  method PickFromAnd(cs: seq<Logic>, fields: FirstFields)
    returns (isNull: bool, b: bool, idxPos: int, vctExpr: seq<Logic>, vctChild: seq<Logic>, ghost ds: seq<Logic>,
             ghost at: seq<nat>, ghost n: nat)
    ensures isNull <==> !ScanSafe(cs, fields, None)
    ensures SameConjuncts(cs, ds, fields)
    ensures multiset(vctExpr) + multiset(vctChild) == multiset(ds)
    ensures b <==> vctExpr != []
    ensures !isNull && !b ==> vctChild == ds && forall i :: 0 <= i < |cs| && !cs[i].And? ==> Index(cs[i], fields) == No
    ensures AllUse(cs, vctExpr, fields, idxPos)
    // they are the conjuncts the scan finds, last one first
    ensures !isNull ==>
              && n <= |cs| && ScanEnd(cs, n, fields, at, idxPos) && TheseTaken(ds, at, vctExpr)
              && TurnedTo(cs, ds, n, fields)
    // without an OR the index is the lowest one that can be used, and nothing that uses it stays behind
    ensures !isNull && (forall i :: 0 <= i < |cs| ==> !cs[i].Or?) ==>
              Lowest(cs, ds, vctExpr, fields, idxPos)
  {
    hide *;
    var vctIL;
    isNull, vctChild, vctIL, idxPos, n := ScanAnd(cs, fields);
    ds, at := vctChild, vctIL;
    vctExpr := [];
    SameCount(cs, ds, fields);
    TakenStart(cs, ds, vctIL, fields, idxPos);
    if isNull {
      b := false;
      TakenEnd(cs, ds, vctIL, |vctIL|, vctExpr, vctChild, fields, idxPos);
      return;
    }
    var k := |vctIL|;
    while k > 0
      invariant 0 <= k <= |vctIL| && |ds| == |cs| && UseIndex(cs, vctIL, fields, idxPos) &&
          SameConjuncts(cs, ds, fields)
      invariant TakenFrom(cs, ds, vctIL, k, vctExpr, vctChild, fields, idxPos)
    {
      k := k - 1;
      var pos := vctIL[k];
      TakenStep(cs, ds, vctIL, k, vctExpr, vctChild, fields, idxPos);
      vctExpr := vctExpr + [vctChild[pos]];
      vctChild := ConjunctsLeft(vctChild, pos);
    }
    b := vctIL != [];
    TakenEnd(cs, ds, vctIL, k, vctExpr, vctChild, fields, idxPos);
    if vctIL == [] { NothingFound(cs, n, fields, vctIL, idxPos); }
    if forall i :: 0 <= i < |cs| ==> !cs[i].Or? {
      NoOrToEnd(cs, n, fields, vctIL, idxPos);
      LowestTaken(cs, ds, vctExpr, fields, vctIL, idxPos);
    }
  }

  /** The conjuncts at positions k and up of those found have left the AND. */
  ghost predicate TakenFrom(cs: seq<Logic>, ds: seq<Logic>, vctIL: seq<nat>, k: nat, vctExpr: seq<Logic>,
      vctChild: seq<Logic>,
                        fields: FirstFields, idxPos: int)
  {
    && k <= |vctIL| && |vctExpr| == |vctIL| - k
    && multiset(vctExpr) + multiset(vctChild) == multiset(ds)
    && (if k == |vctIL| then vctChild == ds
        else vctIL[k] <= |vctChild| <= |ds| && vctChild[..vctIL[k]] == ds[..vctIL[k]])
    && AllUse(cs, vctExpr, fields, idxPos)
    && (forall m :: k <= m < |vctIL| ==> vctIL[m] < |ds| && ds[vctIL[m]] == vctExpr[|vctIL| - 1 - m])
  }

  /** The conjuncts at these positions, last one first. */
  predicate TheseTaken(ds: seq<Logic>, at: seq<nat>, us: seq<Logic>) {
    |us| == |at| && forall m :: 0 <= m < |at| ==> at[m] < |ds| && ds[at[m]] == us[|at| - 1 - m]
  }

  lemma NoOrToEnd(cs: seq<Logic>, n: nat, fields: FirstFields, at: seq<nat>, idxPos: int)
    requires n <= |cs| && ScanEnd(cs, n, fields, at, idxPos) && forall i :: 0 <= i < |cs| ==> !cs[i].Or?
    ensures Scanned(cs, |cs|, fields, at, idxPos)
  {
    hide Index;
  }

  lemma SameCount(cs: seq<Logic>, ds: seq<Logic>, fields: FirstFields)
    requires SameConjuncts(cs, ds, fields)
    ensures |cs| == |ds|
  {
  }

  lemma TakenStart(cs: seq<Logic>, ds: seq<Logic>, vctIL: seq<nat>, fields: FirstFields, idxPos: int)
    ensures TakenFrom(cs, ds, vctIL, |vctIL|, [], ds, fields, idxPos)
  {
    hide AllUse;
    NoneUsed(cs, fields, idxPos);
  }

  lemma TakenStep(cs: seq<Logic>, ds: seq<Logic>, vctIL: seq<nat>, k: nat, vctExpr: seq<Logic>, vctChild: seq<Logic>,
                  fields: FirstFields, idxPos: int)
    requires k < |vctIL| && TakenFrom(cs, ds, vctIL, k + 1, vctExpr, vctChild, fields, idxPos)
    requires UseIndex(cs, vctIL, fields, idxPos) && SameConjuncts(cs, ds, fields)
    ensures vctIL[k] < |vctChild|
    ensures TakenFrom(cs, ds, vctIL, k, vctExpr + [vctChild[vctIL[k]]], ConjunctsLeft(vctChild, vctIL[k]), fields,
        idxPos)
  {
    hide Index, AllUse, UseIndex, SameConjunct;
    var at := vctIL[k];
    UsesAt(cs, vctIL, fields, idxPos, k);
    assert at < |vctChild| && vctChild[at] == ds[at] && vctChild[..at] ==
        ds[..at] by { StillThere(vctIL, k, vctChild, ds); }
    UseAlso(cs, vctExpr, fields, idxPos, at, ds[at]);
    TakenOut(vctChild, at);
  }

  lemma TakenEnd(cs: seq<Logic>, ds: seq<Logic>, vctIL: seq<nat>, k: nat, vctExpr: seq<Logic>, vctChild: seq<Logic>,
                 fields: FirstFields, idxPos: int)
    requires TakenFrom(cs, ds, vctIL, k, vctExpr, vctChild, fields, idxPos)
    ensures multiset(vctExpr) + multiset(vctChild) == multiset(ds) && AllUse(cs, vctExpr, fields, idxPos)
    ensures |vctExpr| == |vctIL| - k && (vctIL == [] ==> vctChild == ds)
    ensures k == 0 ==> TheseTaken(ds, vctIL, vctExpr)
  {
  }

  /** No conjunct uses a lower index, and all that use this one are taken. */
  ghost predicate Lowest(cs: seq<Logic>, ds: seq<Logic>, us: seq<Logic>, fields: FirstFields, idxPos: int)
    requires |cs| == |ds|
  {
    forall i :: 0 <= i < |cs| && !cs[i].And? && Index(cs[i], fields).Yes? ==>
      idxPos <= Index(cs[i], fields).idxPos && (Index(cs[i], fields).idxPos == idxPos ==> ds[i] in us)
  }

  lemma LowestTaken(cs: seq<Logic>, ds: seq<Logic>, us: seq<Logic>, fields: FirstFields, at: seq<nat>, idxPos: int)
    requires Scanned(cs, |cs|, fields, at, idxPos) && |cs| == |ds|
    requires TheseTaken(ds, at, us)
    ensures Lowest(cs, ds, us, fields, idxPos)
  {
    hide Index;
    forall i | 0 <= i < |cs| && !cs[i].And? && Index(cs[i], fields).Yes?
      ensures idxPos <= Index(cs[i], fields).idxPos && (Index(cs[i], fields).idxPos == idxPos ==> ds[i] in us)
    {
      assert SeenOk(Index(cs[i], fields), i, at, idxPos);
      if i in at {
        var m :| 0 <= m < |at| && at[m] == i;
        assert ds[at[m]] == us[|at| - 1 - m];
      }
    }
  }

  lemma NoneUsed(cs: seq<Logic>, fields: FirstFields, idxPos: int)
    ensures AllUse(cs, [], fields, idxPos)
  {
  }

  lemma UseAlso(cs: seq<Logic>, us: seq<Logic>, fields: FirstFields, idxPos: int, at: nat, d: Logic)
    requires AllUse(cs, us, fields, idxPos) && at < |cs| && !cs[at].And? && Index(cs[at], fields) == Yes(idxPos)
    requires SameConjunct(cs[at], d, fields)
    ensures AllUse(cs, us + [d], fields, idxPos)
  {
    hide Index, Turned, SameConjunct;
    assert cs[at] in cs;
  }

  lemma UsesAt(cs: seq<Logic>, at: seq<nat>, fields: FirstFields, idxPos: int, k: nat)
    requires UseIndex(cs, at, fields, idxPos) && k < |at|
    ensures at[k] < |cs| && !cs[at[k]].And? && Index(cs[at[k]], fields) == Yes(idxPos)
    ensures k + 1 < |at| ==> at[k] < at[k + 1]
  {
  }

  lemma StillThere(at: seq<nat>, k: nat, vs: seq<Logic>, ds: seq<Logic>)
    requires k < |at| && at[k] < |ds| && (k + 1 < |at| ==> at[k] < at[k + 1])
    requires if k + 1 == |at| then vs == ds else at[k + 1] <= |vs| <= |ds| && vs[..at[k + 1]] == ds[..at[k + 1]]
    ensures at[k] < |vs| && vs[at[k]] == ds[at[k]] && vs[..at[k]] == ds[..at[k]]
  {
    if k + 1 < |at| {
      assert vs[..at[k + 1]][at[k]] == ds[..at[k + 1]][at[k]];
      assert vs[..at[k + 1]][..at[k]] == vs[..at[k]] && ds[..at[k + 1]][..at[k]] == ds[..at[k]];
    }
  }

  // ---------- the split ----------

  lemma SplitMeans(cs: seq<Logic>, ds: seq<Logic>, us: seq<Logic>, vs: seq<Logic>, fields: FirstFields, env: Env)
    requires SameConjuncts(cs, ds, fields) && multiset(us) + multiset(vs) == multiset(ds)
    ensures CalcAnd(cs, env) == True <==> CalcAnd(us, env) == True && CalcAnd(vs, env) == True
    ensures NoError(cs, env) ==> NoError(us, env) && NoError(vs, env)
  {
    forall i | 0 <= i < |cs| ensures Calc(ds[i], env) == Calc(cs[i], env) {
      TurnedSame(cs[i], fields, env);
    }
    AndSame(cs, ds, env);
    AndMeans(ds, env);
    AndMeans(us, env);
    AndMeans(vs, env);
    forall c ensures c in ds <==> c in us || c in vs {
      assert c in multiset(ds) <==> c in multiset(us) + multiset(vs);
    }
    if NoError(cs, env) {
      forall c | c in ds ensures Calc(c, env) != Error {
        var i :| 0 <= i < |ds| && ds[i] == c;
        assert cs[i] in cs;
      }
    }
  }

  predicate NoError(cs: seq<Logic>, env: Env) {
    forall c :: c in cs ==> Calc(c, env) != Error
  }

  datatype IndexSearch = IndexSearch(idxLogic: Logic, idxPos: int)

  /** A condition that may be absent holds when it is. */
  function CalcOpt(e: Option<Logic>, env: Env): TriBool {
    if e.None? then True else Calc(e.value, env)
  }

  function CalcBoth(idx: Option<IndexSearch>, rest: Option<Logic>, env: Env): TriBool {
    var tb := if idx.None? then True else Calc(idx.value.idxLogic, env);
    if tb != True then tb else CalcOpt(rest, env)
  }

  /** One conjunct stands for itself. */
  function Rejoined(cs: seq<Logic>): Logic {
    if |cs| == 1 then cs[0] else And(cs)
  }

  lemma JoinedMeans(cs: seq<Logic>, env: Env)
    ensures Calc(Rejoined(cs), env) == CalcAnd(cs, env)
  {
    if |cs| == 1 { assert cs[1..] == []; }
  }

  /** The conjuncts of a condition. */
  function Conjuncts(e: Logic): seq<Logic> {
    if e.And? then e.vctChild else [e]
  }

  /** The search stays clear of null pointers. */
  predicate Safe(e: Logic, fields: FirstFields) {
    if e.And? then ScanSafe(e.vctChild, fields, None) else Index(e, fields) != NullPointer
  }

  /** Which conditions are safe, read off their shape. */
  lemma SafeIff(e: Logic, fields: FirstFields)
    requires Formed(e)
    ensures Safe(e, fields)
            <==> if e.And? then forall i :: 0 <= i < |e.vctChild| ==>
                !NullBefore(e.vctChild, i, fields) else !GoesNull(e, fields)
  {
    if e.And? { ScanSafeIff(e.vctChild, fields); } else { NullIff(e, fields); }
  }

  /** How an AND was split: its conjuncts, turned as far as the scan came, and those left; the positions of the ones
      picked, and where the scan ended. */
  datatype AndSplit = AndSplit(ds: seq<Logic>, rest: seq<Logic>, at: seq<nat>, n: nat)

  class ExprWhere {
    var exprLogic: Option<Logic>
    var indexSearch: Option<IndexSearch>

    constructor (e: Logic)
      ensures exprLogic == Some(e) && indexSearch == None
    {
      exprLogic, indexSearch := Some(e), None;
    }

    /** ExprWhere::Preprocess up to the point query: the index condition and the residual filter together
        accept exactly the rows the original condition accepts, and give the same answer wherever no
        conjunct fails to evaluate. */
    method Preprocess(fields: FirstFields) returns (isNull: bool, ghost cut: AndSplit)
      requires exprLogic.Some? && indexSearch.None?
      modifies this
      ensures isNull <==> !Safe(old(exprLogic).value, fields)
      ensures !isNull ==> forall env :: CalcBoth(indexSearch, exprLogic, env) == True <==>
          Calc(old(exprLogic).value, env) == True
      ensures !isNull ==> forall env :: NoError(Conjuncts(old(exprLogic).value), env) ==>
                CalcBoth(indexSearch, exprLogic, env) == Calc(old(exprLogic).value, env)
      // every conjunct that was picked is one of the original conjuncts and can use the reported index
      ensures !isNull && indexSearch.Some? ==> AllUse(Conjuncts(old(exprLogic).value),
          Conjuncts(indexSearch.value.idxLogic), fields, indexSearch.value.idxPos)
      // of an AND: the index is the lowest one before the scan ends, the conjuncts picked are all that use it there,
      // and the filter keeps the others
      ensures !isNull && old(exprLogic).value.And? ==>
                var cs := old(exprLogic).value.vctChild;
                && cut.n <= |cs| && TurnedTo(cs, cut.ds, cut.n, fields)
                && if indexSearch.None? then cut.at == [] && exprLogic == Some(And(cut.ds))
                   else
                     var us := Conjuncts(indexSearch.value.idxLogic);
                     && us != [] && ScanEnd(cs, cut.n, fields, cut.at, indexSearch.value.idxPos)
                     && TheseTaken(cut.ds, cut.at, us) && multiset(us) + multiset(cut.rest) == multiset(cut.ds)
                     && exprLogic == if cut.rest == [] then None else Some(Rejoined(cut.rest))
      // any other condition is the one or the other as a whole
      ensures !isNull && !old(exprLogic).value.And? ==>
                var e := Turned(old(exprLogic).value, fields);
                if indexSearch.None? then exprLogic == Some(e) else exprLogic.None? && indexSearch.value.idxLogic == e
      // an index is used whenever some conjunct can use one
      ensures !isNull && indexSearch.None? ==>
                exprLogic.Some?
                && forall c :: c in Conjuncts(old(exprLogic).value) && !c.And? ==> !Index(c, fields).Yes?
    {
      hide Calc, CalcAnd, Index, Turned, ScanSafe, SameConjuncts, SameConjunct, AllUse, ScanEnd, TheseTaken, TurnedTo;
      var e := exprLogic.value;
      cut := AndSplit([], [], [], 0);
      if e.And? {
        var b, idxPos, vctExpr, vctChild;
        ghost var ds, at, n;
        isNull, b, idxPos, vctExpr, vctChild, ds, at, n := PickFromAnd(e.vctChild, fields);
        if isNull {
          return;
        }
        cut := AndSplit(ds, vctChild, at, n);
        TakenCount(ds, at, vctExpr);
        if b {
          PickedConjuncts(e.vctChild, vctExpr, fields, idxPos);
          PickedThese(e.vctChild, vctExpr, fields, idxPos);
          indexSearch := Some(IndexSearch(Rejoined(vctExpr), idxPos));
          exprLogic := if vctChild == [] then None else Some(Rejoined(vctChild));
        } else {
          exprLogic := Some(And(vctChild));
        }
        forall env
          ensures CalcBoth(indexSearch, exprLogic, env) == True <==> Calc(e, env) == True
          ensures NoError(e.vctChild, env) ==> CalcBoth(indexSearch, exprLogic, env) == Calc(e, env)
        {
          SplitAnd(e.vctChild, ds, vctExpr, vctChild, fields, env, idxPos);
        }
      } else {
        var e', p := PickIndexCondition(e, fields);
        isNull := p == NullPointer;
        if isNull {
          return;
        }
        if p.Yes? {
          OneConjunct(e, fields, p.idxPos);
          indexSearch := Some(IndexSearch(e', p.idxPos));
          exprLogic := None;
        } else {
          exprLogic := Some(e');
        }
        forall env ensures CalcBoth(indexSearch, exprLogic, env) == Calc(e, env) {
          TurnedSame(e, fields, env);
        }
      }
    }
  }

  lemma PickedConjuncts(cs: seq<Logic>, us: seq<Logic>, fields: FirstFields, idxPos: int)
    requires AllUse(cs, us, fields, idxPos) && us != []
    ensures AllUse(cs, Conjuncts(Rejoined(us)), fields, idxPos)
  {
    if |us| == 1 {
      assert us[0] in us;
      var c :| c in cs && !c.And? && SameConjunct(c, us[0], fields) && Index(c, fields) == Yes(idxPos);
      assert us == [us[0]];
    }
  }

  lemma TakenCount(ds: seq<Logic>, at: seq<nat>, us: seq<Logic>)
    requires TheseTaken(ds, at, us)
    ensures at == [] <==> us == []
  {
  }

  lemma PickedThese(cs: seq<Logic>, us: seq<Logic>, fields: FirstFields, idxPos: int)
    requires AllUse(cs, us, fields, idxPos) && us != []
    ensures Conjuncts(Rejoined(us)) == us
  {
    hide Turned;
    if |us| == 1 {
      assert us[0] in us;
      var c :| c in cs && !c.And? && SameConjunct(c, us[0], fields) && Index(c, fields) == Yes(idxPos);
      TurnedKind(c, fields);
      assert us == [us[0]];
    }
  }

  lemma TurnedKind(c: Logic, fields: FirstFields)
    ensures Turned(c, fields).And? <==> c.And?
  {
  }

  lemma OneConjunct(e: Logic, fields: FirstFields, idxPos: int)
    requires !e.And? && Index(e, fields) == Yes(idxPos)
    ensures AllUse(Conjuncts(e), Conjuncts(Turned(e, fields)), fields, idxPos)
  {
    assert SameConjunct(e, Turned(e, fields), fields);
  }

  lemma SplitAnd(cs: seq<Logic>, ds: seq<Logic>, us: seq<Logic>, vs: seq<Logic>, fields: FirstFields, env: Env,
      idxPos: int)
    requires SameConjuncts(cs, ds, fields) && multiset(us) + multiset(vs) == multiset(ds)
    ensures var idx := if us == [] then None else Some(IndexSearch(Rejoined(us), idxPos));
      var rest := if us == [] then Some(And(vs)) else if vs == [] then None else Some(Rejoined(vs));
      && (CalcBoth(idx, rest, env) == True <==> Calc(And(cs), env) == True)
      && (NoError(cs, env) ==> CalcBoth(idx, rest, env) == Calc(And(cs), env))
  {
    SplitMeans(cs, ds, us, vs, fields, env);
    JoinedMeans(us, env);
    JoinedMeans(vs, env);
    AndMeans(cs, env);
    AndMeans(us, env);
    AndMeans(vs, env);
  }

  /** For example `(f = v AND f = v) OR f = v`, and as written `f BETWEEN v AND v`. */
  lemma NullExamples(i: nat, v: Val, fields: FirstFields)
    requires i in fields.pos
    ensures var c := Comp(EQ, Field(i), Const(v)); !Safe(Or([And([c, c]), c]), fields)
    ensures fields.asWritten ==> !Safe(Between(Field(i), Const(v), Const(v)), fields)
  {
    var c := Comp(EQ, Field(i), Const(v));
    assert Index(c, fields) == Yes(fields.pos[i]);
    assert [c, c][0] == c;
    var o := [And([c, c]), c];
    assert Index(o[0], fields) == NullPointer;
    assert OrIndex(o, fields, -1) == NullPointer;
    var b := Between(Field(i), Const(v), Const(v));
    assert fields.asWritten ==> Index(b, fields) == NullPointer;
  }

  /** Removed a BETWEEN of a field and constants the code as written is the one that looks the child up. */
  predicate NoBetween(e: Logic) {
    match e
    case Between(c, l, h) => !(c.Field? && IsConstValue(l) && IsConstValue(h))
    case And(cs) => forall i :: 0 <= i < |cs| ==> NoBetween(cs[i])
    case Or(cs) => forall i :: 0 <= i < |cs| ==> NoBetween(cs[i])
    case _ => true
  }

  lemma {:induction false} WrittenSame(e: Logic, pos: map<nat, nat>)
    requires NoBetween(e)
    ensures Index(e, FirstFields(pos, true)) == Index(e, FirstFields(pos, false))
    decreases e, 0
  {
    match e
    case And(cs) =>
      forall i | 0 <= i < |cs| ensures Index(cs[i], FirstFields(pos, true)) == Index(cs[i], FirstFields(pos, false)) {
        WrittenSame(cs[i], pos);
      }
    case Or(cs) => OrWrittenSame(cs, pos, -1);
    case _ =>
  }

  lemma {:induction false} OrWrittenSame(cs: seq<Logic>, pos: map<nat, nat>, idxPos: int)
    requires forall i :: 0 <= i < |cs| ==> NoBetween(cs[i])
    ensures OrIndex(cs, FirstFields(pos, true), idxPos) == OrIndex(cs, FirstFields(pos, false), idxPos)
    decreases cs, 1
  {
    if cs != [] {
      WrittenSame(cs[0], pos);
      var p := Index(cs[0], FirstFields(pos, true));
      if p.Yes? { OrWrittenSame(cs[1..], pos, p.idxPos); }
    }
  }
}
