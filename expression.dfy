/** compileExpression (src/cpp.cpp:648-716): a flat left-to-right emitter with one slot for a
    queued operator and no precedence.  The expression is first viewed as a sequence of items
    (operand code or operator opcode) read off the source; the emitter then runs over the items.
    A reference definition, in which each operator simply trades places with the item after it,
    is proved to emit the same bytes. */
module Expression {
  import opened Wasm
  import opened Lexer
  import opened Keywords
  import opened Variables

  datatype Item = Operand(code: seq<Byte>) | Operator(op: Byte)

  /** What the emitter has written and the operator it still holds (0 when none). */
  datatype Emission = Emission(code: seq<Byte>, pending: Byte)

  /** `if (queuedOperation) *writePos++ = queuedOperation;` */
  function Flush(q: Byte): (r: seq<Byte>)
    ensures |r| <= 1 && (r == [] <==> q == UNREACHABLE)
  {
    if q == UNREACHABLE then [] else [q]
  }

  /** The emitter: an operand is written and then the queued operator; an operator first
      releases the queued one and then takes its place in the queue. */
  function Run(items: seq<Item>, q: Byte): (r: Emission)
    ensures items == [] ==> r.pending == q
    ensures items != [] && items[|items| - 1].Operand? ==> r.pending == UNREACHABLE
    ensures items != [] && items[|items| - 1].Operator? ==> r.pending == items[|items| - 1].op
  {
    if items == [] then Emission([], q)
    else
      assert |items| > 1 ==> items[1..][|items| - 2] == items[|items| - 1];
      match items[0]
      case Operand(c) =>
        var rest := Run(items[1..], UNREACHABLE);
        Emission(c + Flush(q) + rest.code, rest.pending)
      case Operator(op) =>
        var rest := Run(items[1..], op);
        Emission(Flush(q) + rest.code, rest.pending)
  }

  /** Reference definition: every operator is written after the item that follows it if that
      item is an operand, before it if it is another operator, and not at all if nothing follows. */
  function Postfix(items: seq<Item>): seq<Byte>
    decreases |items|
  {
    if items == [] then []
    else match items[0]
      case Operand(c) => c + Postfix(items[1..])
      case Operator(op) =>
        if |items| == 1 then []
        else match items[1]
          case Operand(c) => c + Flush(op) + Postfix(items[2..])
          case Operator(_) => Flush(op) + Postfix(items[1..])
  }

  /** The emitter writes exactly what the reference definition prescribes, the queued operator
      it starts with counting as an operator in front of the items. */
  lemma {:induction false} RunIsPostfix(items: seq<Item>, q: Byte)
    ensures Run(items, q).code == Postfix([Operator(q)] + items)
    decreases |items|
  {
    var all := [Operator(q)] + items;
    assert all[1..] == items;
    if items == [] {
    } else {
      assert all[2..] == items[1..];
      match items[0]
      case Operand(c) =>
        RunIsPostfix(items[1..], UNREACHABLE);
        NothingQueued(items[1..]);
      case Operator(op) =>
        RunIsPostfix(items[1..], op);
        assert ([Operator(op)] + items[1..]) == items;
    }
  }

  /** An empty operator in front of the items changes nothing: the reference definition
      writes no byte for it. */
  lemma NothingQueued(items: seq<Item>)
    ensures Postfix([Operator(UNREACHABLE)] + items) == Postfix(items)
  {
    var zs := [Operator(UNREACHABLE)] + items;
    assert zs[1..] == items;
    if items != [] {
      assert zs[2..] == items[1..];
      match items[0]
      case Operand(c) =>
      case Operator(op) =>
    }
  }

  /** Running over two consecutive pieces is running over the first and then over the second
      with what the first left queued. */
  lemma {:induction false} RunAppend(a: seq<Item>, b: seq<Item>, q: Byte)
    ensures Run(a + b, q).code == Run(a, q).code + Run(b, Run(a, q).pending).code
    ensures Run(a + b, q).pending == Run(b, Run(a, q).pending).pending
    decreases |a|
  {
    if a == [] {
      assert a + b == b;
    } else {
      assert (a + b)[0] == a[0];
      assert (a + b)[1..] == a[1..] + b;
      var next := if a[0].Operand? then UNREACHABLE else a[0].op;
      RunAppend(a[1..], b, next);
    }
  }

  /** An operator at the end is held back: nothing is written for it, only the operator it
      displaces. */
  lemma TrailingOperatorHeld(items: seq<Item>, op: Byte, q: Byte)
    ensures Run(items + [Operator(op)], q) == Emission(Run(items, q).code + Flush(Run(items, q).pending), op)
  {
    RunAppend(items, [Operator(op)], q);
  }

  /** `2 + 3 * 4` is evaluated strictly left to right: 2, 3, add, 4, mul. */
  lemma LeftToRight(two: seq<Byte>, three: seq<Byte>, four: seq<Byte>)
    ensures Run([Operand(two), Operator(F32_ADD), Operand(three), Operator(F32_MUL), Operand(four)], UNREACHABLE).code
      == two + three + [F32_ADD] + four + [F32_MUL]
  {
    var items := [Operand(two), Operator(F32_ADD), Operand(three), Operator(F32_MUL), Operand(four)];
    var s4 := [Operand(four)];
    var s3 := [Operator(F32_MUL)] + s4;
    var s2 := [Operand(three)] + s3;
    var s1 := [Operator(F32_ADD)] + s2;
    assert items == [Operand(two)] + s1;
    assert s4[1..] == [] && s3[1..] == s4 && s2[1..] == s3 && s1[1..] == s2 && items[1..] == s1;
    assert Run(s4, F32_MUL).code == four + [F32_MUL];
    assert Run(s3, UNREACHABLE).code == four + [F32_MUL];
    assert Run(s2, F32_ADD).code == three + [F32_ADD] + four + [F32_MUL];
    assert Run(s1, UNREACHABLE).code == three + [F32_ADD] + four + [F32_MUL];
  }

  /** The variables in scope of an expression: the tables' hashes, how many of the entries are
      globals, and how many entries are in use. */
  datatype Scope = Scope(hashes: seq<U32>, globals: nat, total: nat)
  {
    predicate Valid()
    {
      total <= |hashes|
    }
  }

  /** The operands an identifier produces: one read per table entry with its hash, in index
      order (the search at src/cpp.cpp:667-683 does not stop at the first match). */
  function LookupItems(sc: Scope, upto: nat, hash: U32): (r: seq<Item>)
    requires upto <= |sc.hashes|
    ensures |r| <= upto
  {
    if upto == 0 then []
    else
      var found := if sc.hashes[upto - 1] == hash then [Operand(GetVar(upto - 1, sc.globals))] else [];
      LookupItems(sc, upto - 1, hash) + found
  }

  /** An identifier reads exactly the variables whose hash it has: none when nothing matches,
      and the k-th matching entry as a global or local read of that entry. */
  lemma {:induction false} LookupReadsMatches(sc: Scope, upto: nat, hash: U32)
    requires upto <= |sc.hashes|
    ensures |LookupItems(sc, upto, hash)| == |Matches(sc.hashes, upto, hash)|
    ensures forall k :: 0 <= k < |LookupItems(sc, upto, hash)| ==>
      LookupItems(sc, upto, hash)[k] == Operand(GetVar(Matches(sc.hashes, upto, hash)[k], sc.globals))
    ensures LookupItems(sc, upto, hash) == [] <==> forall i :: 0 <= i < upto ==> sc.hashes[i] != hash
  {
    if upto > 0 {
      LookupReadsMatches(sc, upto - 1, hash);
    }
  }

  /** The condition at src/cpp.cpp:684 under which a token is a numeric literal. */
  predicate IsNumberLiteral(src: seq<char>, q: nat): (b: bool)
    ensures b ==> StartsNumber(At(src, q)) && TokenEnd(src, q) > q + (if At(src, q) == '-' then 1 else 0)
    ensures StartsNumber(At(src, q)) && At(src, q) != '-' ==> b
  {
    (At(src, q) == '-' && (IsDigit(At(src, q + 1)) || At(src, q + 1) == '.'))
      || IsDigit(At(src, q)) || At(src, q) == '.'
  }

  /** The text handed to stof: the token without its optional trailing `f`. */
  function LiteralText(src: seq<char>, q: nat, e: nat): (t: seq<char>)
    requires q < e
    ensures |t| == e - q || (|t| == e - q - 1 && At(src, e - 1) == 'f')
  {
    if At(src, e - 1) == 'f' then Span(src, q, e - 1) else Span(src, q, e)
  }

  /** The items one token produces. */
  function TokenItems(src: seq<char>, lit: seq<char> -> Quad, sc: Scope, q: nat, e: nat): (r: seq<Item>)
    requires sc.Valid() && q < e
    ensures !IsValidLeadingIdChar(At(src, q)) && IsNumberLiteral(src, q) ==>
      |r| == 1 && r[0].Operand? && |r[0].code| == 5 && r[0].code[0] == F32_CONST
    ensures !IsValidLeadingIdChar(At(src, q)) && !IsNumberLiteral(src, q) ==>
      |r| == 1 && r[0].Operator? && (r[0].op == UNREACHABLE <==> At(src, q) !in OPERATORS)
  {
    if IsValidLeadingIdChar(At(src, q)) then LookupItems(sc, sc.total, Hash(Span(src, q, e)))
    else if IsNumberLiteral(src, q) then [Operand([F32_CONST] + lit(LiteralText(src, q, e)))]
    else [Operator(OpFromOperator(At(src, q)))]
  }

  datatype Scanned = Scanned(stop: nat, items: seq<Item>)

  /** The token loop of compileExpression: from p, skip blanks, and stop on `;`, `)` or the
      end of the input; otherwise take one token and go on after it. */
  function ExprItems(src: seq<char>, lit: seq<char> -> Quad, sc: Scope, p: nat): (r: Scanned)
    requires sc.Valid()
    ensures r.stop >= p
    decreases |src| - p
  {
    var q := NextToken(src, p);
    if q >= |src| || src[q] == ';' || src[q] == ')' then Scanned(q, [])
    else
      var e := TokenEnd(src, q);
      var rest := ExprItems(src, lit, sc, e);
      Scanned(rest.stop, TokenItems(src, lit, sc, q, e) + rest.items)
  }

  /** What compileExpression writes when called with the read position at p. */
  function ExprCode(src: seq<char>, lit: seq<char> -> Quad, sc: Scope, p: nat): (code: seq<Byte>)
    requires sc.Valid()
    ensures code == Postfix(ExprItems(src, lit, sc, p).items)
  {
    var items := ExprItems(src, lit, sc, p).items;
    RunIsPostfix(items, UNREACHABLE);
    NothingQueued(items);
    Run(items, UNREACHABLE).code
  }

  predicate IsTerminator(c: char)
  {
    c == ';' || c == ')'
  }

  /** The first `;` or `)` at or after p, or the end of the input. */
  function FirstTerminator(src: seq<char>, p: nat): (r: nat)
    ensures p <= r
    ensures forall k :: p <= k < r ==> !IsTerminator(At(src, k))
    ensures r < |src| ==> IsTerminator(src[r])
    ensures r >= |src| ==> r == if p < |src| then |src| else p
    decreases |src| - p
  {
    if p >= |src| || IsTerminator(src[p]) then p else FirstTerminator(src, p + 1)
  }

  lemma {:induction false} FirstTerminatorSkips(src: seq<char>, p: nat, q: nat)
    requires p <= q && (q <= |src| || p == q)
    requires forall k :: p <= k < q ==> !IsTerminator(At(src, k))
    ensures FirstTerminator(src, p) == FirstTerminator(src, q)
    decreases q - p
  {
    if p < q {
      assert At(src, p) == src[p];
      FirstTerminatorSkips(src, p + 1, q);
    }
  }

  /** compileExpression consumes nothing past its end: it stops on the first `;` or `)` at or
      after its start (or at the end of the input) and leaves it unread. */
  lemma {:induction false} ExprStopsAtTerminator(src: seq<char>, lit: seq<char> -> Quad, sc: Scope, p: nat)
    requires sc.Valid()
    ensures ExprItems(src, lit, sc, p).stop == FirstTerminator(src, p)
    decreases |src| - p
  {
    var q := NextToken(src, p);
    FirstTerminatorSkips(src, p, q);
    if !(q >= |src| || src[q] == ';' || src[q] == ')') {
      var e := TokenEnd(src, q);
      FirstTerminatorSkips(src, q, e);
      ExprStopsAtTerminator(src, lit, sc, e);
    }
  }
}
