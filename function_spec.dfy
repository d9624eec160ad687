/** compileAndInsertFunction (src/cpp.cpp:432-645) as functions on an explicit state: the
    parameter scan, the two passes over the body (pass 0 records local declarations, pass 1
    generates code), the local-declaration header written between them and the back-patched
    body size. */
module FunctionSpec {
  import opened Wasm
  import opened Lexer
  import opened Keywords
  import opened Variables
  import opened Expression

  /** `++scopeDepth` and `--scopeDepth` on a u32. */
  function Inc32(d: U32): (r: U32)
    ensures d + 1 < TWO32 ==> r == d + 1
    ensures d + 1 == TWO32 ==> r == 0
    ensures Dec32(r) == d
  {
    (d + 1) % TWO32
  }

  function Dec32(d: U32): (r: U32)
    ensures d > 0 ==> r == d - 1
    ensures d == 0 ==> r == TWO32 - 1
  {
    (d - 1) % TWO32
  }

  /** What stays fixed while one function is compiled: the source, the bytes stof/insertF32
      produce for a literal's text, and globalVarCount. */
  datatype Ctx = Ctx(src: seq<char>, lit: seq<char> -> Quad, globals: nat)

  /** The locals of compileAndInsertFunction that live across statements and passes. */
  datatype Locals = Locals(total: nat, target: Option<nat>, callee: Option<nat>, isIf: bool, depth: U32)

  /** The read position, the output so far, the variable tables and the locals. */
  datatype FnState = FnState(pos: nat, out: seq<Byte>, tb: Tables, loc: Locals)

  predicate Fits(c: Ctx, s: FnState)
  {
    s.tb.Valid() && c.globals <= s.loc.total <= CAPACITY
  }

  /** Nothing is read twice and nothing written is taken back. */
  predicate Grows(s: FnState, r: FnState)
  {
    s.pos <= r.pos && s.out <= r.out && s.loc.total <= r.loc.total
  }

  /** Variable tables as the expression compiler sees them. */
  function ScopeOf(c: Ctx, s: FnState): (sc: Scope)
    requires Fits(c, s)
    ensures sc.Valid()
  {
    Scope(s.tb.hashes, c.globals, s.loc.total)
  }

  /** A call of compileExpression with the read position at p. */
  function Compile(c: Ctx, s: FnState, p: nat): (r: FnState)
    requires Fits(c, s) && s.pos <= p
    ensures Fits(c, r) && Grows(s, r) && r.tb == s.tb && r.loc == s.loc
  {
    var x := ExprItems(c.src, c.lit, ScopeOf(c, s), p);
    s.(pos := x.stop, out := s.out + Run(x.items, UNREACHABLE).code)
  }

  /** The characters printed for one string literal of a `std::cout` statement, from p up to
      the closing quote: `\n` stands for a newline, every other character for its own byte. */
  function StrChars(src: seq<char>, p: nat): (r: (nat, seq<Byte>))
    ensures p <= r.0
    ensures r.0 < |src| ==> src[r.0] == '"'
    decreases |src| - p
  {
    if p >= |src| || src[p] == '"' then (p, [])
    else if src[p] == '\\' && At(src, p + 1) == 'n' then
      var r := StrChars(src, p + 2);
      (r.0, [10 as Byte] + r.1)
    else
      var r := StrChars(src, p + 1);
      (r.0, [ByteOf(src[p] as int)] + r.1)
  }

  /** The scan of a `std::cout` statement up to its `;`: the characters of all its string
      literals, in order; anything outside quotes is skipped. */
  function CoutScan(src: seq<char>, p: nat): (r: (nat, seq<Byte>))
    ensures p <= r.0
    ensures r.0 < |src| ==> src[r.0] == ';'
    decreases |src| - p
  {
    if p >= |src| || src[p] == ';' then (p, [])
    else if src[p] == '"' then
      var s := StrChars(src, p + 1);
      var r := CoutScan(src, s.0 + 1);
      (r.0, s.1 + r.1)
    else CoutScan(src, p + 1)
  }

  /** `i32.const c; call 2` (the imported put) for each character. */
  function PutCalls(chars: seq<Byte>): (code: seq<Byte>)
    ensures |code| == 4 * |chars|
  {
    if chars == [] then [] else [I32_CONST, chars[0], CALL, 2] + PutCalls(chars[1..])
  }

  /** What the host prints when it runs a sequence of put calls (public/create-ui.js adds 128
      to a negative argument); None if the code is not such a sequence. */
  function HostPrints(code: seq<Byte>): (r: Option<seq<int>>)
    ensures r.Some? ==> 4 * |r.value| == |code|
    decreases |code|
  {
    if code == [] then Some([])
    else if |code| < 4 || code[0] != I32_CONST || code[2] != CALL || code[3] != 2 then None
    else match DecodeSigned([code[1]])
      case None => None
      case Some((v, _)) =>
        match HostPrints(code[4..])
        case None => None
        case Some(rest) => Some([HostPut(v)] + rest)
  }

  /** Running the put calls written for a string of ASCII characters prints that string. */
  lemma {:induction false} PutCallsPrint(chars: seq<Byte>)
    requires forall k :: 0 <= k < |chars| ==> chars[k] < 128
    ensures HostPrints(PutCalls(chars)).Some?
    ensures |HostPrints(PutCalls(chars)).value| == |chars|
    ensures forall k :: 0 <= k < |chars| ==> HostPrints(PutCalls(chars)).value[k] == chars[k] as int
    decreases |chars|
  {
    if chars != [] {
      var code := PutCalls(chars);
      assert code[4..] == PutCalls(chars[1..]);
      PutRecoversAsciiByte(chars[0], []);
      assert [chars[0]] + [] == [chars[0]];
      PutCallsPrint(chars[1..]);
      var rest := HostPrints(PutCalls(chars[1..])).value;
      assert HostPrints(code) == Some([chars[0] as int] + rest);
    }
  }

  /** Lines 483-494: `{` deepens the scope; `}` writes `end`, leaves it and, back at depth 0,
      ends the pass with the read position on that brace. */
  function Braces(c: Ctx, s: FnState): (r: (FnState, bool))
    requires s.pos < |c.src|
    ensures r.0.pos == s.pos && r.0.tb == s.tb && r.0.loc.total == s.loc.total
    ensures r.0.loc.(depth := s.loc.depth) == s.loc
    ensures c.src[s.pos] == '}' ==> r.0.out == s.out + [END] && r.1 == (r.0.loc.depth == 0)
    ensures c.src[s.pos] != '}' ==> r.0.out == s.out && !r.1
  {
    var ch := c.src[s.pos];
    var d := if ch == '{' then Inc32(s.loc.depth) else s.loc.depth;
    if ch == '}' then
      var d' := Dec32(d);
      (s.(out := s.out + [END], loc := s.loc.(depth := d')), d' == 0)
    else (s.(loc := s.loc.(depth := d)), false)
  }

  /** Lines 503-524: a type name declares the identifier after it, which becomes the assignment
      target; pass 0 also records it in the tables. */
  function Declare(c: Ctx, pass: nat, s: FnState, e: nat, t: Byte): (r: FnState)
    requires Fits(c, s) && s.pos <= e
    ensures Fits(c, r) && Grows(s, r) && r.out == s.out
    ensures pass != 0 ==> r.tb == s.tb && r.loc.total == s.loc.total
    ensures r.loc.target == Some(s.loc.total)
    ensures r.pos == NextIdentifier(c.src, e)
    ensures pass == 0 && s.loc.total < CAPACITY ==>
      && r.loc.total == s.loc.total + 1 && r.tb.overflow == s.tb.overflow
      && r.tb.hashes[s.loc.total] == Hash(Span(c.src, r.pos, TokenEnd(c.src, r.pos)))
      && r.tb.types[s.loc.total] == t
    ensures pass == 0 && s.loc.total == CAPACITY ==> r.loc.total == CAPACITY && r.tb.overflow
    ensures forall i :: 0 <= i < CAPACITY && i != s.loc.total ==>
      r.tb.hashes[i] == s.tb.hashes[i] && r.tb.types[i] == s.tb.types[i]
  {
    var p := NextIdentifier(c.src, e);
    var e2 := TokenEnd(c.src, p);
    var h := Hash(Span(c.src, p, e2));
    var loc := s.loc.(target := Some(s.loc.total));
    if pass == 0 then
      var (tb, n) := Record(s.tb, s.loc.total, h, t);
      s.(pos := p, tb := tb, loc := loc.(total := n))
    else s.(pos := p, loc := loc)
  }

  /** Lines 525-586: in pass 1 an identifier that is not a type name starts an `if`, a call of
      drawCircle, a `std::cout` statement or an assignment to a known variable. */
  function Statement(c: Ctx, s: FnState, e: nat, hash: U32): (r: FnState)
    requires Fits(c, s) && s.pos <= e
    ensures Fits(c, r) && Grows(s, r) && r.tb == s.tb && r.loc.total == s.loc.total
  {
    if hash == HASH_IF then Compile(c, s.(loc := s.loc.(isIf := true)), NextToken(c.src, e) + 1)
    else if hash == HASH_DRAW_CIRCLE then
      s.(pos := SkipPast(c.src, s.pos, '('), loc := s.loc.(callee := Some(0)))
    else if hash == HASH_COUT then
      var (q, chars) := CoutScan(c.src, e);
      s.(pos := q, out := s.out + PutCalls(chars))
    else
      var target := LastMatch(s.tb.hashes, s.loc.total, hash, s.loc.target);
      s.(pos := SkipPast(c.src, s.pos, '='), loc := s.loc.(target := target))
  }

  /** What each kind of statement does: `if` raises the `if` flag and compiles its
      condition; `drawCircle` makes function 0 the pending call; `std::cout` writes the put
      calls of its strings; anything else makes the last table entry with the name's hash the
      assignment target. */
  lemma StatementCases(c: Ctx, s: FnState, e: nat, hash: U32)
    requires Fits(c, s) && s.pos <= e
    ensures var r := Statement(c, s, e, hash);
      && (hash == HASH_IF ==>
        && r.loc == s.loc.(isIf := true) && r.tb == s.tb
        && r.out == s.out + ExprCode(c.src, c.lit, ScopeOf(c, s), NextToken(c.src, e) + 1)
        && r.pos == ExprItems(c.src, c.lit, ScopeOf(c, s), NextToken(c.src, e) + 1).stop)
      && (hash == HASH_DRAW_CIRCLE ==>
        r.loc == s.loc.(callee := Some(0)) && r.out == s.out && r.pos == SkipPast(c.src, s.pos, '('))
      && (hash == HASH_COUT ==>
        r.loc == s.loc && r.out == s.out + PutCalls(CoutScan(c.src, e).1) && r.pos == CoutScan(c.src, e).0)
      && (hash != HASH_IF && hash != HASH_DRAW_CIRCLE && hash != HASH_COUT ==>
        && r.loc == s.loc.(target := LastMatch(s.tb.hashes, s.loc.total, hash, s.loc.target))
        && r.out == s.out && r.pos == SkipPast(c.src, s.pos, '='))
  {
  }

  /** A `std::cout` statement whose strings are ASCII makes the host print exactly their
      characters, in order. */
  lemma CoutPrintsItsStrings(c: Ctx, s: FnState, e: nat)
    requires Fits(c, s) && s.pos <= e
    requires forall k :: 0 <= k < |CoutScan(c.src, e).1| ==> CoutScan(c.src, e).1[k] < 128
    ensures var chars := CoutScan(c.src, e).1;
      var printed := HostPrints(Statement(c, s, e, HASH_COUT).out[|s.out|..]);
      && printed.Some? && |printed.value| == |chars|
      && forall k :: 0 <= k < |chars| ==> printed.value[k] == chars[k] as int
  {
    var chars := CoutScan(c.src, e).1;
    assert Statement(c, s, e, HASH_COUT).out[|s.out|..] == PutCalls(chars);
    PutCallsPrint(chars);
  }

  /** Lines 496-597: a statement beginning with an identifier.  Pass 0 then skips past the next
      `;`; pass 1 compiles the expression that follows. */
  function Identifier(c: Ctx, pass: nat, s: FnState): (r: FnState)
    requires Fits(c, s) && s.pos < |c.src|
    ensures Fits(c, r) && Grows(s, r)
    ensures pass != 0 ==> r.tb == s.tb && r.loc.total == s.loc.total
  {
    var e := TokenEnd(c.src, s.pos);
    var hash := Hash(Span(c.src, s.pos, e));
    var t := TypeFromHash(hash);
    var s1 := if t != VOID then Declare(c, pass, s, e, t) else if pass == 1 then Statement(c, s, e, hash) else s;
    if pass == 0 then s1.(pos := SkipPast(c.src, s1.pos, ';')) else Compile(c, s1, s1.pos)
  }

  /** Lines 599-623: at `;` the pending assignment is stored, or else the pending call is made;
      at `)` of an `if` condition the `if` block opens; then the read position moves on. */
  function Terminators(c: Ctx, s: FnState): (r: FnState)
    requires Fits(c, s)
    ensures Fits(c, r) && Grows(s, r) && r.pos == s.pos + 1 && r.tb == s.tb && r.loc.total == s.loc.total
    ensures r.loc.depth == s.loc.depth
  {
    var s1 :=
      if At(c.src, s.pos) != ';' then s
      else if s.loc.target.Some? then
        s.(out := s.out + SetVar(s.loc.target.value, c.globals), loc := s.loc.(target := None))
      else if s.loc.callee.Some? then
        s.(out := s.out + [CALL, ByteOf(s.loc.callee.value)], loc := s.loc.(callee := None))
      else s;
    var s2 :=
      if At(c.src, s1.pos) == ')' && s1.loc.isIf then
        s1.(out := s1.out + [IF, VOID], loc := s1.loc.(isIf := false))
      else s1;
    s2.(pos := s2.pos + 1)
  }

  /** One iteration of the loop at lines 482-624, and whether it ends the pass. */
  function Step(c: Ctx, pass: nat, s: FnState): (r: (FnState, bool))
    requires Fits(c, s) && s.pos < |c.src|
    ensures Fits(c, r.0) && Grows(s, r.0)
    ensures r.1 ==> r.0.pos == s.pos
    ensures !r.1 ==> r.0.pos > s.pos
    ensures pass != 0 ==> r.0.tb == s.tb && r.0.loc.total == s.loc.total
  {
    var (s1, brk) := Braces(c, s);
    if brk then (s1, true)
    else
      var s2 := if IsValidLeadingIdChar(c.src[s.pos]) then Identifier(c, pass, s1) else s1;
      (Terminators(c, s2), false)
  }

  /** One pass: iterations until a `}` brings the depth back to 0 or the input ends. */
  function RunPass(c: Ctx, pass: nat, s: FnState): (r: FnState)
    requires Fits(c, s)
    ensures Fits(c, r) && Grows(s, r)
    ensures pass != 0 ==> r.tb == s.tb && r.loc.total == s.loc.total
    decreases |c.src| - s.pos, 1
  {
    if s.pos >= |c.src| then s else StepThenRun(c, pass, s)
  }

  /** One iteration from s, then the rest of the pass unless that iteration ended it. */
  function StepThenRun(c: Ctx, pass: nat, s: FnState): (r: FnState)
    requires Fits(c, s) && s.pos < |c.src|
    ensures Fits(c, r) && Grows(s, r)
    ensures pass != 0 ==> r.tb == s.tb && r.loc.total == s.loc.total
    decreases |c.src| - s.pos, 0
  {
    var (s1, brk) := Step(c, pass, s);
    if brk then s1 else RunPass(c, pass, s1)
  }

  /** A pass that has not reached the end of the input is one iteration followed by the rest
      of the pass, unless that iteration ended it. */
  lemma RunPassUnfolds(c: Ctx, pass: nat, s: FnState)
    requires Fits(c, s) && s.pos < |c.src|
    ensures var (s1, brk) := Step(c, pass, s); RunPass(c, pass, s) == if brk then s1 else RunPass(c, pass, s1)
  {
    assert RunPass(c, pass, s) == StepThenRun(c, pass, s);
  }

  /** Lines 441-470: the parameters `type name, ...` up to `)`, recorded after the globals. */
  function Params(src: seq<char>, pos: nat, tb: Tables, total: nat): (r: (nat, Tables, nat))
    requires tb.Valid() && total <= CAPACITY
    ensures r.1.Valid() && total <= r.2 <= CAPACITY && pos <= r.0
    ensures forall i :: 0 <= i < total ==> r.1.hashes[i] == tb.hashes[i] && r.1.types[i] == tb.types[i]
    ensures r.0 < |src| ==> src[r.0] == ')'
    decreases |src| - pos
  {
    if pos >= |src| || src[pos] == ')' then (pos, tb, total)
    else if IsValidLeadingIdChar(src[pos]) then
      var e := TokenEnd(src, pos);
      var t := TypeFromHash(Hash(Span(src, pos, e)));
      var p := NextIdentifier(src, e);
      var e2 := TokenEnd(src, p);
      var (tb', n) := Record(tb, total, Hash(Span(src, p, e2)), t);
      Params(src, e2, tb', n)
    else Params(src, pos + 1, tb, total)
  }

  /** The parameters of a declaration `(type name, ...)`, in order: the hash of each name and
      the type its type word names. */
  function ParamList(src: seq<char>, pos: nat): (ps: seq<(U32, Byte)>)
    decreases |src| - pos
  {
    if pos >= |src| || src[pos] == ')' then []
    else if IsValidLeadingIdChar(src[pos]) then
      var e := TokenEnd(src, pos);
      var p := NextIdentifier(src, e);
      var e2 := TokenEnd(src, p);
      [(Hash(Span(src, p, e2)), TypeFromHash(Hash(Span(src, pos, e))))] + ParamList(src, e2)
    else ParamList(src, pos + 1)
  }

  /** The k-th parameter lands in slot `total + k`, with its name's hash and its type; with
      more parameters than free slots, the count stops at 32 and the overflow flag is raised. */
  /** A parameter scan's result `r` holds the list ps in order from slot `total`, or the count
      stopped at 32 with the overflow flag raised. */
  predicate InOrder(r: (nat, Tables, nat), ps: seq<(U32, Byte)>, tb: Tables, total: nat)
    requires r.1.Valid()
  {
    && (total + |ps| <= CAPACITY ==>
      && r.2 == total + |ps| && r.1.overflow == tb.overflow
      && forall k :: 0 <= k < |ps| ==> r.1.hashes[total + k] == ps[k].0 && r.1.types[total + k] == ps[k].1)
    && (total + |ps| > CAPACITY ==> r.2 == CAPACITY && r.1.overflow)
  }

  lemma {:induction false} ParamsRecordInOrder(src: seq<char>, pos: nat, tb: Tables, total: nat)
    requires tb.Valid() && total <= CAPACITY
    ensures var r := Params(src, pos, tb, total); var ps := ParamList(src, pos);
      && (total + |ps| <= CAPACITY ==>
        && r.2 == total + |ps| && r.1.overflow == tb.overflow
        && forall k :: 0 <= k < |ps| ==> r.1.hashes[total + k] == ps[k].0 && r.1.types[total + k] == ps[k].1)
      && (total + |ps| > CAPACITY ==> r.2 == CAPACITY && r.1.overflow)
    decreases |src| - pos
  {
    if pos >= |src| || src[pos] == ')' {
    } else if IsValidLeadingIdChar(src[pos]) {
      var e := TokenEnd(src, pos);
      var t := TypeFromHash(Hash(Span(src, pos, e)));
      var p := NextIdentifier(src, e);
      var e2 := TokenEnd(src, p);
      var h := Hash(Span(src, p, e2));
      var (tb', n) := Record(tb, total, h, t);
      ParamsRecordInOrder(src, e2, tb', n);
      assert ParamList(src, pos) == [(h, t)] + ParamList(src, e2);
      assert Params(src, pos, tb, total) == Params(src, e2, tb', n);
      InOrderStep(tb, total, (h, t), ParamList(src, e2), Params(src, e2, tb', n));
    } else {
      ParamsRecordInOrder(src, pos + 1, tb, total);
    }
  }

  /** One `type name` pair: recording it at `total` and then the rest in order after it
      records the whole list in order. */
  lemma InOrderStep(tb: Tables, total: nat, first: (U32, Byte), rest: seq<(U32, Byte)>, r: (nat, Tables, nat))
    requires tb.Valid() && total <= CAPACITY && r.1.Valid()
    requires var (tb', n) := Record(tb, total, first.0, first.1);
      && InOrder(r, rest, tb', n)
      && forall i :: 0 <= i < n ==> r.1.hashes[i] == tb'.hashes[i] && r.1.types[i] == tb'.types[i]
    ensures InOrder(r, [first] + rest, tb, total)
  {
    if total + 1 + |rest| <= CAPACITY {
      assert r.1.hashes[total] == first.0 && r.1.types[total] == first.1;
      SlotsShift(r.1, total, first, rest);
    }
  }

  /** Entry `total` holding the first pair and the entries after it holding the rest, in
      order, is the whole list held in order from `total`. */
  lemma SlotsShift(tb: Tables, total: nat, first: (U32, Byte), rest: seq<(U32, Byte)>)
    requires tb.Valid() && total + 1 + |rest| <= CAPACITY
    requires tb.hashes[total] == first.0 && tb.types[total] == first.1
    requires forall k :: 0 <= k < |rest| ==> tb.hashes[total + 1 + k] == rest[k].0 && tb.types[total + 1 + k] == rest[k].1
    ensures var ps := [first] + rest;
      forall k :: 0 <= k < |ps| ==> tb.hashes[total + k] == ps[k].0 && tb.types[total + k] == ps[k].1
  {
    var ps := [first] + rest;
    forall k | 0 <= k < |ps|
      ensures tb.hashes[total + k] == ps[k].0 && tb.types[total + k] == ps[k].1
    {
      if k > 0 {
        assert ps[k] == rest[k - 1];
      }
    }
  }

  /** The byte at functionBodySize[2] receiving the local count (line 628); a write at or past
      the end of the output so far is overwritten by the bytes that follow, so it leaves no trace. */
  function PatchCount(out: seq<Byte>, mark: nat, count: nat): (r: seq<Byte>)
    ensures |r| == |out|
  {
    if mark + 2 < |out| then out[mark + 2 := ByteOf(count)] else out
  }

  /** One `(1, type)` local entry per variable from index `lo` up to `hi` (lines 631-634). */
  function Pairs(types: seq<Byte>, lo: nat, hi: nat): (r: seq<Byte>)
    requires hi <= |types|
    ensures |r| == if lo <= hi then 2 * (hi - lo) else 0
  {
    if hi <= lo then [] else Pairs(types, lo, hi - 1) + [1, types[hi - 1]]
  }

  /** The local header lists every parameter and local in index order, each as one entry of
      its own type. */
  lemma {:induction false} PairsListTypes(types: seq<Byte>, lo: nat, hi: nat)
    requires lo <= hi <= |types|
    ensures forall k :: 0 <= k < hi - lo ==>
      Pairs(types, lo, hi)[2 * k] == 1 && Pairs(types, lo, hi)[2 * k + 1] == types[lo + k]
    decreases hi
  {
    if lo < hi {
      PairsListTypes(types, lo, hi - 1);
    }
  }

  /** `size = writePos - field - 2; field[0] = (size & 0x7F) | 0x80; field[1] = size >> 7;` */
  function PatchSize(body: seq<Byte>, mark: nat): (r: seq<Byte>)
    requires mark + 2 <= |body|
    ensures |r| == |body| && r[..mark] == body[..mark] && r[mark + 2..] == body[mark + 2..]
  {
    body[..mark] + SizeField(|body| - mark - 2) + body[mark + 2..]
  }

  /** A patched size field holds the number of bytes after it, as a valid two-byte LEB128
      encoding whenever that number fits in 14 bits. */
  lemma PatchedSizeDecodes(body: seq<Byte>, mark: nat)
    requires mark + 2 <= |body|
    ensures |body| - mark - 2 < 16384 ==> DecodeUnsigned(PatchSize(body, mark)[mark..]) == Some((|body| - mark - 2, 2))
  {
    var size := |body| - mark - 2;
    assert PatchSize(body, mark)[mark..] == SizeField(size) + body[mark + 2..];
    SizeFieldDecodes(size, body[mark + 2..]);
  }

  datatype Compiled = Compiled(pos: nat, out: seq<Byte>, tb: Tables, total: nat)

  /** The output after pass 0 and the local header, with the state pass 1 starts from. */
  function AfterPassZero(c: Ctx, mark: nat, start: FnState): (r: FnState)
    requires Fits(c, start) && |start.out| == mark + 2
    ensures Fits(c, r) && r.pos == start.pos && start.out <= r.out
  {
    var s0 := RunPass(c, 0, start);
    var n := s0.loc.total - c.globals;
    var header := PatchCount(s0.out, mark, n) + Pairs(s0.tb.types, c.globals, s0.loc.total);
    s0.(pos := start.pos, out := header)
  }

  /** Where both passes begin: after the size placeholder and the parameters, with no
      assignment target, no pending call, no `if` and depth 0. */
  function FunctionStart(c: Ctx, pos: nat, out: seq<Byte>, tb: Tables): (r: FnState)
    requires tb.Valid() && c.globals <= CAPACITY
    ensures Fits(c, r) && r.out == out + [0x80, 0x00] && pos <= r.pos
  {
    var (p, tb1, total) := Params(c.src, pos, tb, c.globals);
    FnState(p, out + [0x80, 0x00], tb1, Locals(total, None, None, false, 0))
  }

  /** The whole function: size placeholder, parameters, pass 0, local header, pass 1, size. */
  function CompileFunction(c: Ctx, pos: nat, out: seq<Byte>, tb: Tables): (r: Compiled)
    requires tb.Valid() && c.globals <= CAPACITY
    ensures r.tb.Valid() && |r.out| >= |out| + 2 && out <= r.out
  {
    var s1 := RunPass(c, 1, AfterPassZero(c, |out|, FunctionStart(c, pos, out, tb)));
    Compiled(s1.pos, PatchSize(s1.out, |out|), s1.tb, s1.loc.total)
  }

  /** A pass ends either at the end of the input or on the `}` that brought the depth back to
      0, with that brace's `end` the last byte written. */
  lemma {:induction false} PassEndsAtClosingBrace(c: Ctx, pass: nat, s: FnState)
    requires Fits(c, s)
    ensures var r := RunPass(c, pass, s);
      r.pos >= |c.src| || (c.src[r.pos] == '}' && r.loc.depth == 0 && |r.out| > 0 && r.out[|r.out| - 1] == END)
    decreases |c.src| - s.pos
  {
    if s.pos < |c.src| {
      RunPassUnfolds(c, pass, s);
      var (s1, brk) := Step(c, pass, s);
      if !brk {
        PassEndsAtClosingBrace(c, pass, s1);
      }
    }
  }

  /** At `;` a pending assignment is stored into its own variable, and only otherwise is a
      pending call made: never both, and whatever is used is cleared.  At `)` of an `if`
      condition the block opens.  At most one instruction is written. */
  lemma StatementEnds(c: Ctx, s: FnState)
    requires Fits(c, s) && c.globals <= 256
    ensures var r := Terminators(c, s); var w := r.out[|s.out|..];
      && |w| <= 2
      && (At(c.src, s.pos) == ';' ==> r.loc.target == None && (s.loc.target.Some? ==> r.loc.callee == s.loc.callee))
      && (At(c.src, s.pos) == ';' && s.loc.target.Some? && s.loc.target.value < c.globals + 256 ==>
            VarOf(w, c.globals) == s.loc.target && w[0] in {SET_GLOBAL, SET_LOCAL})
      && (At(c.src, s.pos) == ';' && s.loc.target.None? && s.loc.callee.Some? ==>
            w == [CALL, ByteOf(s.loc.callee.value)] && r.loc.callee == None)
      && (At(c.src, s.pos) == ')' && s.loc.isIf ==> w == [IF, VOID] && !r.loc.isIf)
      && (At(c.src, s.pos) != ';' && (At(c.src, s.pos) != ')' || !s.loc.isIf) ==> w == [] && r.loc == s.loc)
  {
    if At(c.src, s.pos) == ';' && s.loc.target.Some? && s.loc.target.value < c.globals + 256 {
      VarIndexRoundTrip(s.loc.target.value, c.globals);
    }
  }

  /** The header written after pass 0: the count byte (which lands on the first byte pass 0
      wrote, if any) holds the number of parameters and locals, and exactly one `(1, type)`
      entry follows for each of them, in index order, parameters first. */
  lemma LocalHeaderListsVariables(c: Ctx, mark: nat, start: FnState)
    requires Fits(c, start) && |start.out| == mark + 2 && start.loc.total >= c.globals
    ensures var s0 := RunPass(c, 0, start); var r := AfterPassZero(c, mark, start);
      var n := s0.loc.total - c.globals;
      && start.loc.total <= s0.loc.total
      && |r.out| == |s0.out| + 2 * n
      && (|s0.out| > mark + 2 ==> r.out[mark + 2] == ByteOf(n))
      && r.out[..mark + 2] == start.out
      && (forall k :: 0 <= k < n ==> r.out[|s0.out| + 2 * k] == 1 && r.out[|s0.out| + 2 * k + 1] == s0.tb.types[c.globals + k])
  {
    var s0 := RunPass(c, 0, start);
    PairsListTypes(s0.tb.types, c.globals, s0.loc.total);
    assert s0.out[..mark + 2] == start.out;
  }

  /** The back-patched body size counts every byte after its own two-byte field, and the field
      is a valid LEB128 encoding of it whenever it fits in 14 bits; the output before the
      function is untouched. */
  lemma BodySizeDecodes(c: Ctx, pos: nat, out: seq<Byte>, tb: Tables)
    requires tb.Valid() && c.globals <= CAPACITY
    ensures var r := CompileFunction(c, pos, out, tb); var size := |r.out| - |out| - 2;
      && r.out[..|out|] == out
      && (size < 16384 ==> DecodeUnsigned(r.out[|out|..]) == Some((size, 2)))
  {
    var s1 := RunPass(c, 1, AfterPassZero(c, |out|, FunctionStart(c, pos, out, tb)));
    PatchedSizeDecodes(s1.out, |out|);
  }
}
