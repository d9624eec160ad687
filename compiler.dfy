/** The compiler itself (src/cpp.cpp): the global read position, the output written so far
    and the variable tables, updated in place by getWasmFromCpp, compileAndInsertFunction and
    compileExpression.  Every method is proved to leave exactly the state the functions of
    Expression, FunctionSpec and ModuleSpec prescribe. */
module CppCompiler {
  import opened Wasm
  import opened Lexer
  import opened Keywords
  import opened Variables
  import opened Expression
  import opened FunctionSpec
  import opened ModuleSpec

  /** Writing `(size & 0x7F) | 0x80` and `size >> 7` into the two bytes at `mark` is the
      patch PatchSize describes. */
  lemma PatchSizeInPlace(body: seq<Byte>, mark: nat)
    requires mark + 2 <= |body|
    ensures var size := |body| - mark - 2;
      body[mark := size % 128 + 128][mark + 1 := (size / 128) % 256] == PatchSize(body, mark)
  {
  }

  lemma ByteAppendAssociates(a: seq<Byte>, b: seq<Byte>, c: seq<Byte>)
    ensures a + (b + c) == (a + b) + c
  {
  }

  lemma AppendAssociates(a: seq<Byte>, b: seq<Byte>, c: seq<Byte>)
    ensures (a + b) + c == a + (b + c)
  {
  }

  /** Running over one more run of put calls appends their code. */
  lemma {:induction false} PutCallsAppend(a: seq<Byte>, b: seq<Byte>)
    ensures PutCalls(a + b) == PutCalls(a) + PutCalls(b)
    decreases |a|
  {
    if a == [] {
      assert a + b == b;
    } else {
      assert (a + b)[0] == a[0] && (a + b)[1..] == a[1..] + b;
      PutCallsAppend(a[1..], b);
    }
  }

  /** The Global section's entries for one more global. */
  lemma {:induction false} GlobalBytesAppend(types: seq<Byte>, t: Byte)
    ensures GlobalBytes(types + [t]) == GlobalBytes(types) + GlobalEntry(t)
    decreases |types|
  {
    if types == [] {
      assert [] + [t] == [t];
    } else {
      assert (types + [t])[1..] == types[1..] + [t];
      GlobalBytesAppend(types[1..], t);
    }
  }

  /** One turn of the token loop: the token at the next non-blank position, then the rest. */
  lemma ExprItemsStep(src: seq<char>, lit: seq<char> -> Quad, sc: Scope, from: nat, queued: Byte)
    requires sc.Valid()
    requires NextToken(src, from) < |src| && !IsTerminator(src[NextToken(src, from)])
    ensures var q := NextToken(src, from); var e := TokenEnd(src, q);
      var tok := Run(TokenItems(src, lit, sc, q, e), queued);
      && Run(ExprItems(src, lit, sc, from).items, queued).code
        == tok.code + Run(ExprItems(src, lit, sc, e).items, tok.pending).code
      && ExprItems(src, lit, sc, from).stop == ExprItems(src, lit, sc, e).stop
  {
    var q := NextToken(src, from);
    var e := TokenEnd(src, q);
    RunAppend(TokenItems(src, lit, sc, q, e), ExprItems(src, lit, sc, e).items, queued);
  }

  /** The token loop ends where the next non-blank character is a terminator or missing. */
  lemma ExprItemsDone(src: seq<char>, lit: seq<char> -> Quad, sc: Scope, from: nat)
    requires sc.Valid()
    requires NextToken(src, from) >= |src| || IsTerminator(src[NextToken(src, from)])
    ensures ExprItems(src, lit, sc, from) == Scanned(NextToken(src, from), [])
  {
  }

  /** One more entry of the lookup: a read of it and the queued operator if its hash matches,
      nothing otherwise. */
  lemma LookupRunStep(sc: Scope, i: nat, hash: U32, queued: Byte)
    requires i < |sc.hashes|
    ensures var r := Run(LookupItems(sc, i, hash), queued); var r' := Run(LookupItems(sc, i + 1, hash), queued);
      && (sc.hashes[i] == hash ==> r'.code == r.code + GetVar(i, sc.globals) + Flush(r.pending) && r'.pending == UNREACHABLE)
      && (sc.hashes[i] != hash ==> r' == r)
  {
    var found := if sc.hashes[i] == hash then [Operand(GetVar(i, sc.globals))] else [];
    assert LookupItems(sc, i + 1, hash) == LookupItems(sc, i, hash) + found;
    RunAppend(LookupItems(sc, i, hash), found, queued);
    if sc.hashes[i] != hash {
      assert LookupItems(sc, i, hash) + found == LookupItems(sc, i, hash);
    }
  }

  /** The assignment search at lines 576-580 looks at one more entry. */
  lemma LastMatchStep(hashes: seq<U32>, i: nat, hash: U32, target: Option<nat>)
    requires i < |hashes|
    ensures LastMatch(hashes, i + 1, hash, target)
      == if hashes[i] == hash then Some(i) else LastMatch(hashes, i, hash, target)
  {
    assert Matches(hashes, i + 1, hash)
      == Matches(hashes, i, hash) + (if hashes[i] == hash then [i] else []);
  }

  /** One character of a string literal: its put call, then the rest from `next`. */
  lemma StrCharsStep(src: seq<char>, p: nat, b: Byte, next: nat)
    requires p < |src| && src[p] != '"'
    requires src[p] == '\\' && At(src, p + 1) == 'n' ==> b == 10 && next == p + 2
    requires !(src[p] == '\\' && At(src, p + 1) == 'n') ==> b == ByteOf(src[p] as int) && next == p + 1
    ensures StrChars(src, p).0 == StrChars(src, next).0
    ensures PutCalls(StrChars(src, p).1) == [I32_CONST, b, CALL, 2] + PutCalls(StrChars(src, next).1)
  {
    var rest := StrChars(src, next).1;
    assert StrChars(src, p).1 == [b] + rest;
    assert ([b] + rest)[1..] == rest;
  }

  /** One step of the `std::cout` scan keeps `whole` split into the characters printed so
      far and those still to come: a string literal moves its characters over, any other
      character moves nothing. */
  lemma CoutScanStep(src: seq<char>, p: nat, whole: (nat, seq<Byte>), done: seq<Byte>)
    requires p < |src| && src[p] != ';'
    requires CoutScan(src, p).0 == whole.0 && whole.1 == done + CoutScan(src, p).1
    ensures src[p] == '"' ==>
      var s := StrChars(src, p + 1);
      CoutScan(src, s.0 + 1).0 == whole.0 && whole.1 == (done + s.1) + CoutScan(src, s.0 + 1).1
    ensures src[p] != '"' ==>
      CoutScan(src, p + 1).0 == whole.0 && whole.1 == done + CoutScan(src, p + 1).1
  {
    if src[p] == '"' {
      var s := StrChars(src, p + 1);
      ByteAppendAssociates(done, s.1, CoutScan(src, s.0 + 1).1);
    }
  }

  /** Put calls for more characters extend the output. */
  lemma PutCallsExtend(o: seq<Byte>, done: seq<Byte>, chars: seq<Byte>)
    ensures (o + PutCalls(done)) + PutCalls(chars) == o + PutCalls(done + chars)
  {
    PutCallsAppend(done, chars);
    AppendAssociates(o, PutCalls(done), PutCalls(chars));
  }

  /** The string-literal loop at lines 550-572, from position p with the output so far `o`:
      one put call per character up to the closing quote, `\n` standing for a newline. */
  method EmitString(text: seq<char>, p: nat, o: seq<Byte>) returns (q: nat, o': seq<Byte>)
    ensures q == StrChars(text, p).0
    ensures o' == o + PutCalls(StrChars(text, p).1)
  {
    q := p;
    o' := o;
    ghost var whole := StrChars(text, p);
    while q < |text| && text[q] != '"'
      invariant StrChars(text, q).0 == whole.0
      invariant o + PutCalls(whole.1) == o' + PutCalls(StrChars(text, q).1)
      decreases |text| - q
    {
      ghost var before := o';
      ghost var q0 := q;
      var b: Byte := ByteOf(text[q] as int);
      if text[q] == '\\' && At(text, q + 1) == 'n' {
        b := 10;
        q := q + 1;
      }
      o' := o' + [I32_CONST, b, CALL, 2];
      q := q + 1;
      StrCharsStep(text, q0, b, q);
      AppendAssociates(before, [I32_CONST, b, CALL, 2], PutCalls(StrChars(text, q).1));
    }
  }

  /** The `std::cout` statement (lines 545-572) from position p: the characters of every
      string literal up to the `;`, each printed by a put call; the scan ends on the `;`. */
  method EmitCout(text: seq<char>, p: nat, o: seq<Byte>) returns (q: nat, o': seq<Byte>)
    ensures q == CoutScan(text, p).0 && o' == o + PutCalls(CoutScan(text, p).1)
  {
    ghost var whole := CoutScan(text, p);
    ghost var done: seq<Byte> := [];
    q := p;
    o' := o;
    while q < |text| && text[q] != ';'
      invariant CoutScan(text, q).0 == whole.0 && whole.1 == done + CoutScan(text, q).1
      invariant o' == o + PutCalls(done)
      decreases |text| - q
    {
      CoutScanStep(text, q, whole, done);
      if text[q] == '"' {
        ghost var s := StrChars(text, q + 1);
        PutCallsExtend(o, done, s.1);
        q, o' := EmitString(text, q + 1, o');
        done := done + s.1;
      }
      q := q + 1;
    }
    assert done + [] == done;
  }

  /** The body skip at lines 283-295: from p, the `}` that brings the brace depth from 0
      back to 0, or the end of the input. */
  method SkipFunctionBody(text: seq<char>, p: nat) returns (r: nat)
    ensures r == SkipBody(text, p, 0)
  {
    r := p;
    var depth := 0;
    while r < |text|
      invariant SkipBody(text, r, depth) == SkipBody(text, p, 0)
      decreases |text| - r
    {
      if text[r] == '{' {
        depth := depth + 1;
      }
      if text[r] == '}' {
        depth := depth - 1;
        if depth == 0 {
          return;
        }
      }
      r := r + 1;
    }
  }

  /** The searches at lines 382-385 and 389-393: from p, the first `(` right after `name`. */
  method FindFunction(text: seq<char>, p: nat, name: string) returns (r: nat)
    ensures r == FindCall(text, p, name)
  {
    r := p;
    while r < |text| && !OpensCall(text, r, name)
      invariant p <= r && FindCall(text, r, name) == FindCall(text, p, name)
      decreases |text| - r
    {
      r := r + 1;
    }
  }

  /** Lines 266-276: the type the word at p names, and the position and hash of the word
      after it. */
  method ReadDeclaration(src: seq<char>, p: nat) returns (t: Byte, q: nat, hash: U32)
    ensures Declaration(t, q, hash) == DeclarationAt(src, p)
  {
    var e := FindTokenEnd(src, p);
    var typeHash := IdentifierHash(Span(src, p, e));
    t := TypeFromHash(typeHash);
    q := FindNextIdentifier(src, e);
    var e2 := FindTokenEnd(src, q);
    hash := IdentifierHash(Span(src, q, e2));
  }

  /** A word that heads `main` or `update`: the scan goes on past the function's body. */
  lemma GlobalScanSkips(src: seq<char>, p: nat, tb: Tables, count: nat, d: Declaration)
    requires tb.Valid() && count <= CAPACITY && p < |src| && IsValidLeadingIdChar(src[p])
    requires d == DeclarationAt(src, p) && (d.h == HASH_MAIN || d.h == HASH_UPDATE)
    ensures GlobalScan(src, p, tb, count) == GlobalScan(src, SkipBody(src, d.q, 0) + 1, tb, count)
  {
  }

  /** Any other pair of words is a global: its type comes first, then the rest of the scan
      from the next line, with the global recorded. */
  lemma GlobalScanRecords(src: seq<char>, p: nat, tb: Tables, count: nat, d: Declaration, tb': Tables, n: nat)
    requires tb.Valid() && count <= CAPACITY && p < |src| && IsValidLeadingIdChar(src[p])
    requires d == DeclarationAt(src, p) && d.h != HASH_MAIN && d.h != HASH_UPDATE
    requires (tb', n) == Record(tb, count, d.h, d.t)
    ensures tb'.Valid() && n <= CAPACITY
    ensures var rest := GlobalScan(src, SkipTo(src, d.q, '\n') + 1, tb', n);
      GlobalScan(src, p, tb, count) == Globals(rest.tb, rest.count, [d.t] + rest.types)
  {
  }

  /** Overwriting the byte after a section id, in a section appended to `o`. */
  lemma PatchSectionByte(o: seq<Byte>, id: Byte, placeholder: Byte, rest: seq<Byte>, v: Byte)
    ensures (o + [id, placeholder] + rest)[|o| + 1 := v] == o + ([id, v] + rest)
  {
    assert (o + [id, placeholder] + rest)[|o| + 1 := v] == o + [id, v] + rest;
  }

  /** Overwriting the two bytes after a section id, in a section appended to `o`. */
  lemma PatchSectionBytes(o: seq<Byte>, id: Byte, rest: seq<Byte>, v: Byte, w: Byte)
    ensures (o + [id, 0, 0] + rest)[|o| + 1 := v][|o| + 2 := w] == o + ([id, v, w] + rest)
  {
    assert (o + [id, 0, 0] + rest)[|o| + 1 := v][|o| + 2 := w] == o + [id, v, w] + rest;
  }

  /** Patching the two-byte size field of a section appended to `o`. */
  lemma PatchSectionSize(o: seq<Byte>, id: Byte, rest: seq<Byte>)
    ensures PatchSize(o + [id, 0, 0] + rest, |o| + 1) == o + ([id] + SizeField(|rest|) + rest)
  {
    var body := o + [id, 0, 0] + rest;
    assert body[..|o| + 1] == o + [id];
    assert body[|o| + 3..] == rest;
  }

  /** The module's parts, appended one after another, make up the prefix. */
  lemma PrefixRegroups(g: Globals)
    ensures Prefix(g) == MAGIC_AND_VERSION + TYPE_SECTION + ImportSection() + FUNCTION_SECTION + MEMORY_SECTION
      + GlobalSection(g.count, g.types) + ExportSection() + CODE_HEADER
  {
    Regroup(MAGIC_AND_VERSION, TYPE_SECTION, ImportSection(), FUNCTION_SECTION, MEMORY_SECTION,
      GlobalSection(g.count, g.types), ExportSection(), CODE_HEADER);
  }

  lemma Regroup(a: seq<Byte>, b: seq<Byte>, c: seq<Byte>, d: seq<Byte>, e: seq<Byte>, f: seq<Byte>, g: seq<Byte>, h: seq<Byte>)
    ensures a + (b + c + d + e + f + g) + h == a + b + c + d + e + f + g + h
  {
  }

  /** A global declaration moves one type from the rest of the scan to the part written. */
  lemma GlobalDeclared(src: seq<char>, p: nat, d: Declaration, tb: Tables, count: nat, tb': Tables, n: nat,
                       whole: Globals, done: seq<Byte>)
    requires tb.Valid() && count <= CAPACITY && p < |src| && IsValidLeadingIdChar(src[p])
    requires d == DeclarationAt(src, p) && d.h != HASH_MAIN && d.h != HASH_UPDATE
    requires (tb', n) == Record(tb, count, d.h, d.t)
    requires var rest := GlobalScan(src, p, tb, count); whole == Globals(rest.tb, rest.count, done + rest.types)
    ensures tb'.Valid() && n <= CAPACITY
    ensures var rest := GlobalScan(src, SkipTo(src, d.q, '\n') + 1, tb', n);
      whole == Globals(rest.tb, rest.count, (done + [d.t]) + rest.types)
  {
    GlobalScanRecords(src, p, tb, count, d, tb', n);
    ShiftType(whole, done, GlobalScan(src, p, tb, count), GlobalScan(src, SkipTo(src, d.q, '\n') + 1, tb', n), d.t);
  }

  /** The entry of one more global extends the bytes written for the globals before it. */
  lemma EntryAppended(out0: seq<Byte>, done: seq<Byte>, t: Byte)
    ensures out0 + GlobalBytes(done) + GlobalEntry(t) == out0 + GlobalBytes(done + [t])
  {
    GlobalBytesAppend(done, t);
    AppendAssociates(out0, GlobalBytes(done), GlobalEntry(t));
  }

  /** Moving the first type of the rest of a scan over to the part already written. */
  lemma ShiftType(whole: Globals, done: seq<Byte>, r: Globals, rest: Globals, t: Byte)
    requires whole == Globals(r.tb, r.count, done + r.types)
    requires r == Globals(rest.tb, rest.count, [t] + rest.types)
    ensures whole == Globals(rest.tb, rest.count, (done + [t]) + rest.types)
  {
    ByteAppendAssociates(done, [t], rest.types);
  }

  class Compiler {
    /** The input, from sourceCode to endReadPos. */
    var src: seq<char>
    /** readPos, as an offset into the input; it may step past the end. */
    var readPos: nat
    /** The bytes written from the start of the module up to writePos. */
    var out: seq<Byte>
    const varHashes: array<U32>
    const varTypes: array<Byte>
    var globalVarCount: nat
    /** Raised when a variable finds no free table slot. */
    var overflow: bool
    /** The four bytes stof and insertF32 write for a literal's text. */
    const lit: seq<char> -> Quad

    predicate Valid()
      reads this
    {
      varHashes.Length == CAPACITY && varTypes.Length == CAPACITY
        && (varHashes as object) != (varTypes as object) && globalVarCount <= CAPACITY
    }

    function Vars(): Tables
      reads this, varHashes, varTypes
    {
      Tables(varHashes[..], varTypes[..], overflow)
    }

    function Context(): Ctx
      reads this
    {
      Ctx(src, lit, globalVarCount)
    }

    /** The state compileAndInsertFunction works on, with its locals. */
    function State(loc: Locals): FnState
      reads this, varHashes, varTypes
    {
      FnState(readPos, out, Vars(), loc)
    }

    /** Both tables zero-initialised, as their static initialisers leave them. */
    constructor (lit: seq<char> -> Quad)
      ensures Valid() && fresh(varHashes) && fresh(varTypes)
      ensures Vars() == Tables(seq(CAPACITY, _ => 0), seq(CAPACITY, _ => 0), false)
      ensures globalVarCount == 0 && this.lit == lit
    {
      src := [];
      readPos := 0;
      out := [];
      varHashes := new U32[CAPACITY](_ => 0);
      varTypes := new Byte[CAPACITY](_ => 0);
      globalVarCount := 0;
      overflow := false;
      this.lit := lit;
    }

    /** `varTypes[count] = t; varHashes[count] = hash; ++count;` with a free slot, or else the
        overflow flag raised. */
    method RecordVariable(count: nat, hash: U32, t: Byte) returns (n: nat)
      requires Valid() && count <= CAPACITY
      modifies this, varHashes, varTypes
      ensures Valid() && src == old(src) && globalVarCount == old(globalVarCount) && readPos == old(readPos) && out == old(out)
      ensures (Vars(), n) == Record(old(Vars()), count, hash, t)
    {
      if count < CAPACITY {
        varTypes[count] := t;
        varHashes[count] := hash;
        n := count + 1;
      } else {
        overflow := true;
        n := count;
      }
    }

    /** The parameter loop at lines 441-470: each `type name` pair up to `)` is recorded in
        the next slot after the globals, and the read position is left on the `)`. */
    method CollectParameters() returns (total: nat)
      requires Valid()
      modifies this, varHashes, varTypes
      ensures Valid() && src == old(src) && globalVarCount == old(globalVarCount) && out == old(out)
      ensures (readPos, Vars(), total) == Params(src, old(readPos), old(Vars()), globalVarCount)
    {
      var text := src;
      total := globalVarCount;
      ghost var whole := Params(text, readPos, Vars(), total);
      while readPos < |text| && text[readPos] != ')'
        invariant Valid() && src == text && globalVarCount == old(globalVarCount) && out == old(out)
        invariant total <= CAPACITY
        invariant Params(text, readPos, Vars(), total) == whole
        decreases |text| - readPos
      {
        if IsValidLeadingIdChar(text[readPos]) {
          var e := FindTokenEnd(text, readPos);
          var typeHash := IdentifierHash(Span(text, readPos, e));
          var p := FindNextIdentifier(text, e);
          var e2 := FindTokenEnd(text, p);
          var hash := IdentifierHash(Span(text, p, e2));
          total := RecordVariable(total, hash, TypeFromHash(typeHash));
          readPos := e2;
        } else {
          readPos := readPos + 1;
        }
      }
    }

    /** Lines 483-494: braces move the scope depth; a `}` writes `end` and, back at depth
        0, ends the pass. */
    method ScopeBraces(loc: Locals) returns (loc': Locals, brk: bool)
      requires Valid() && readPos < |src|
      modifies this
      ensures Valid() && src == old(src) && globalVarCount == old(globalVarCount) && overflow == old(overflow) && readPos == old(readPos)
      ensures var r := Braces(Context(), old(State(loc))); out == r.0.out && loc' == r.0.loc && brk == r.1
    {
      loc' := loc;
      brk := false;
      if src[readPos] == '{' {
        loc' := loc'.(depth := Inc32(loc'.depth));
      }
      if src[readPos] == '}' {
        loc' := loc'.(depth := Dec32(loc'.depth));
        out := out + [END];
        brk := loc'.depth == 0;
      }
    }

    /** Lines 503-524: the identifier after a type name becomes the assignment target and,
        in pass 0, a new entry of the tables. */
    method DeclareVariable(pass: nat, loc: Locals, e: nat, t: Byte) returns (loc': Locals)
      requires Valid() && Fits(Context(), State(loc)) && readPos <= e
      modifies this, varHashes, varTypes
      ensures Valid() && src == old(src) && globalVarCount == old(globalVarCount)
      ensures State(loc') == Declare(old(Context()), pass, old(State(loc)), e, t)
    {
      readPos := FindNextIdentifier(src, e);
      var e2 := FindTokenEnd(src, readPos);
      var hash := IdentifierHash(Span(src, readPos, e2));
      loc' := loc.(target := Some(loc.total));
      if pass == 0 {
        var n := RecordVariable(loc.total, hash, t);
        loc' := loc'.(total := n);
      }
    }

    /** Lines 529-538: the condition of an `if`, compiled from just after the `(` that
        follows it. */
    method CompileCondition(loc: Locals, e: nat) returns (loc': Locals)
      requires Valid() && Fits(Context(), State(loc)) && readPos <= e
      modifies this
      ensures Valid() && src == old(src) && globalVarCount == old(globalVarCount) && overflow == old(overflow)
      ensures State(loc') == Compile(old(Context()), old(State(loc)).(loc := loc.(isIf := true)), NextToken(src, e) + 1)
    {
      loc' := loc.(isIf := true);
      var p := FindNextToken(src, e);
      readPos := p + 1;
      CompileExpression(loc.total);
    }

    /** Lines 572-584: an assignment; the last variable with the name's hash becomes the
        target, and reading resumes after the `=`. */
    method SelectTarget(loc: Locals, ghost e: nat, hash: U32) returns (loc': Locals)
      requires Valid() && Fits(Context(), State(loc)) && readPos <= e
      requires hash != HASH_IF && hash != HASH_DRAW_CIRCLE && hash != HASH_COUT
      modifies this
      ensures Valid() && src == old(src) && globalVarCount == old(globalVarCount) && overflow == old(overflow)
      ensures State(loc') == Statement(old(Context()), old(State(loc)), e, hash)
    {
      var target := FindTarget(loc.total, hash, loc.target);
      loc' := loc.(target := target);
      readPos := FindPast(src, readPos, '=');
    }

    /** Lines 525-586 (pass 1): `if` compiles its condition, drawCircle queues a call,
        `std::cout` writes its put calls, and any other identifier selects the assignment
        target. */
    method CompileStatement(loc: Locals, e: nat, hash: U32) returns (loc': Locals)
      requires Valid() && Fits(Context(), State(loc)) && readPos <= e
      modifies this
      ensures Valid() && src == old(src) && globalVarCount == old(globalVarCount) && overflow == old(overflow)
      ensures var r := Statement(Context(), old(State(loc)), e, hash);
        readPos == r.pos && out == r.out && loc' == r.loc && Vars() == r.tb
    {
      loc' := loc;
      if hash == HASH_IF {
        loc' := CompileCondition(loc, e);
      } else if hash == HASH_DRAW_CIRCLE {
        loc' := loc.(callee := Some(0));
        readPos := FindPast(src, readPos, '(');
      } else if hash == HASH_COUT {
        readPos, out := EmitCout(src, e, out);
      } else {
        loc' := SelectTarget(loc, e, hash);
      }
    }

    /** Lines 496-597: a statement that begins with an identifier; pass 0 then skips to past
        the `;`, pass 1 compiles the expression that follows. */
    method CompileIdentifier(pass: nat, loc: Locals) returns (loc': Locals)
      requires Valid() && Fits(Context(), State(loc)) && readPos < |src|
      modifies this, varHashes, varTypes
      ensures Valid() && src == old(src) && globalVarCount == old(globalVarCount)
      ensures State(loc') == Identifier(old(Context()), pass, old(State(loc)))
    {
      var e := FindTokenEnd(src, readPos);
      var hash := IdentifierHash(Span(src, readPos, e));
      var t := TypeFromHash(hash);
      loc' := loc;
      if t != VOID {
        loc' := DeclareVariable(pass, loc, e, t);
      } else if pass == 1 {
        loc' := CompileStatement(loc, e, hash);
      }
      if pass == 0 {
        readPos := FindPast(src, readPos, ';');
      } else {
        CompileExpression(loc'.total);
      }
    }

    /** Lines 599-623: the pending store or call at `;`, the `if` block at `)`, then one
        character on. */
    method EndStatement(loc: Locals) returns (loc': Locals)
      requires Valid() && Fits(Context(), State(loc))
      modifies this
      ensures Valid() && src == old(src) && globalVarCount == old(globalVarCount) && overflow == old(overflow)
      ensures State(loc') == Terminators(Context(), old(State(loc)))
    {
      loc' := loc;
      var ch := At(src, readPos);
      if ch == ';' {
        if loc.target.Some? {
          out := out + SetVar(loc.target.value, globalVarCount);
          loc' := loc'.(target := None);
        } else if loc.callee.Some? {
          out := out + [CALL, ByteOf(loc.callee.value)];
          loc' := loc'.(callee := None);
        }
      }
      if ch == ')' && loc'.isIf {
        out := out + [IF, VOID];
        loc' := loc'.(isIf := false);
      }
      readPos := readPos + 1;
    }

    /** One iteration of the loop at lines 482-624; `brk` is its `break`. */
    method PassStep(pass: nat, loc: Locals) returns (loc': Locals, brk: bool)
      requires Valid() && Fits(Context(), State(loc)) && readPos < |src|
      modifies this, varHashes, varTypes
      ensures Valid() && src == old(src) && globalVarCount == old(globalVarCount)
      ensures (State(loc'), brk) == Step(old(Context()), pass, old(State(loc)))
    {
      loc', brk := ScopeBraces(loc);
      if !brk {
        if IsValidLeadingIdChar(src[readPos]) {
          loc' := CompileIdentifier(pass, loc');
        }
        loc' := EndStatement(loc');
      }
    }

    /** One pass over the body (lines 482-624): until the `}` that closes it or the end of
        the input. */
    method CompilePass(pass: nat, loc: Locals) returns (loc': Locals)
      requires Valid() && Fits(Context(), State(loc))
      modifies this, varHashes, varTypes
      ensures Valid() && src == old(src) && globalVarCount == old(globalVarCount)
      ensures State(loc') == RunPass(old(Context()), pass, old(State(loc)))
    {
      ghost var c := Context();
      ghost var whole := RunPass(c, pass, State(loc));
      loc' := loc;
      while readPos < |src|
        invariant Valid() && Context() == c && Fits(c, State(loc'))
        invariant RunPass(c, pass, State(loc')) == whole
        decreases |src| - readPos
      {
        RunPassUnfolds(c, pass, State(loc'));
        var brk;
        loc', brk := PassStep(pass, loc');
        if brk {
          break;
        }
      }
    }

    /** `1, type` for each parameter and local, after pass 0 (lines 631-634). */
    method EmitLocalHeader(total: nat)
      requires Valid() && globalVarCount <= total <= CAPACITY
      modifies this
      ensures Valid() && src == old(src) && globalVarCount == old(globalVarCount) && overflow == old(overflow) && readPos == old(readPos)
      ensures out == old(out) + Pairs(varTypes[..], globalVarCount, total)
    {
      for i := globalVarCount to total
        invariant Valid() && src == old(src) && globalVarCount == old(globalVarCount) && overflow == old(overflow) && readPos == old(readPos)
        invariant out == old(out) + Pairs(varTypes[..], globalVarCount, i)
      {
        AppendAssociates(old(out), Pairs(varTypes[..], globalVarCount, i), [1, varTypes[i]]);
        out := out + [1, varTypes[i]];
      }
    }

    /** Lines 432-636: the size placeholder, the parameters, pass 0 and the local header;
        the read position is back at the start of the body for pass 1. */
    method FirstPass() returns (mark: nat, loc: Locals)
      requires Valid()
      modifies this, varHashes, varTypes
      ensures Valid() && src == old(src) && globalVarCount == old(globalVarCount) && mark == |old(out)|
      ensures State(loc) == AfterPassZero(old(Context()), mark, FunctionStart(old(Context()), old(readPos), old(out), old(Vars())))
    {
      ghost var c := Context();
      mark := |out|;
      out := out + [0x80, 0x00];
      var total := CollectParameters();
      var beginning := readPos;
      ghost var start := State(Locals(total, None, None, false, 0));
      assert start == FunctionStart(c, old(readPos), old(out), old(Vars()));
      loc := CompilePass(0, Locals(total, None, None, false, 0));
      ghost var s0 := State(loc);
      var n := loc.total - globalVarCount;
      if mark + 2 < |out| {
        out := out[mark + 2 := ByteOf(n)];
      }
      assert out == PatchCount(s0.out, mark, n);
      EmitLocalHeader(loc.total);
      readPos := beginning;
    }

    /** compileAndInsertFunction (lines 432-645), from the read position just past a
        function's name: its body, with the size field, the local header and the code, is
        written, and the read position is left on the `}` that closes it. */
    method CompileAndInsertFunction()
      requires Valid()
      modifies this, varHashes, varTypes
      ensures Valid() && src == old(src) && globalVarCount == old(globalVarCount)
      ensures var r := CompileFunction(old(Context()), old(readPos), old(out), old(Vars()));
        readPos == r.pos && out == r.out && Vars() == r.tb
    {
      ghost var c := Context();
      ghost var r := CompileFunction(c, readPos, out, Vars());
      ghost var afterZero := AfterPassZero(c, |out|, FunctionStart(c, readPos, out, Vars()));
      var mark, loc := FirstPass();
      assert State(loc) == afterZero;
      loc := CompilePass(1, loc);
      ghost var s1 := State(loc);
      assert s1 == RunPass(c, 1, afterZero);
      assert r == Compiled(s1.pos, PatchSize(s1.out, mark), s1.tb, s1.loc.total);
      PatchSizeField(mark);
    }

    /** Lines 367-369, 399-401 and 642-644: the two bytes at `mark` receive the number of bytes
        written after them. */
    method PatchSizeField(mark: nat)
      requires mark + 2 <= |out|
      modifies this
      ensures src == old(src) && readPos == old(readPos) && globalVarCount == old(globalVarCount) && overflow == old(overflow)
      ensures out == PatchSize(old(out), mark)
    {
      var size := |out| - mark - 2;
      PatchSizeInPlace(out, mark);
      out := out[mark := size % 128 + 128][mark + 1 := (size / 128) % 256];
    }

    /** Lines 298-338: a global, whose entry is appended to the section and which is
        recorded in the tables; the scan goes on from the line after it.  `whole` is what the
        scan yields from the start, `done` the types written so far. */
    method DeclareGlobal(p: nat, t: Byte, q: nat, hash: U32, ghost whole: Globals, ghost out0: seq<Byte>, ghost done: seq<Byte>)
        returns (next: nat)
      requires Valid() && p < |src| && IsValidLeadingIdChar(src[p])
      requires Declaration(t, q, hash) == DeclarationAt(src, p) && hash != HASH_MAIN && hash != HASH_UPDATE
      requires var rest := GlobalScan(src, p, Vars(), globalVarCount); whole == Globals(rest.tb, rest.count, done + rest.types)
      requires out == out0 + GlobalBytes(done)
      modifies this, varHashes, varTypes
      ensures Valid() && src == old(src) && p < next
      ensures var rest := GlobalScan(src, next, Vars(), globalVarCount); whole == Globals(rest.tb, rest.count, (done + [t]) + rest.types)
      ensures out == out0 + GlobalBytes(done + [t])
    {
      ghost var tb := Vars();
      ghost var count := globalVarCount;
      var lineEnd := FindChar(src, q, '\n');
      next := lineEnd + 1;
      EntryAppended(out0, done, t);
      var n := RecordVariable(globalVarCount, hash, t);
      ghost var tb' := Vars();
      GlobalDeclared(src, p, Declaration(t, q, hash), tb, count, tb', n, whole, done);
      globalVarCount := n;
      out := out + GlobalEntry(t);
      assert Vars() == tb';
    }

    /** One word of the global scan (lines 266-338, with the `++readPos` at line 341): the
        head of `main` or `update` is skipped with its body; any other pair of words is a
        global. */
    method ScanDeclaration(p: nat, ghost whole: Globals, ghost out0: seq<Byte>, ghost done: seq<Byte>)
        returns (next: nat, ghost done': seq<Byte>)
      requires Valid() && p < |src| && IsValidLeadingIdChar(src[p])
      requires var rest := GlobalScan(src, p, Vars(), globalVarCount); whole == Globals(rest.tb, rest.count, done + rest.types)
      requires out == out0 + GlobalBytes(done)
      modifies this, varHashes, varTypes
      ensures Valid() && src == old(src) && p < next
      ensures var rest := GlobalScan(src, next, Vars(), globalVarCount); whole == Globals(rest.tb, rest.count, done' + rest.types)
      ensures out == out0 + GlobalBytes(done')
    {
      var t, q, hash := ReadDeclaration(src, p);
      if hash == HASH_MAIN || hash == HASH_UPDATE {
        GlobalScanSkips(src, p, Vars(), globalVarCount, Declaration(t, q, hash));
        next := SkipFunctionBody(src, q);
        next := next + 1;
        done' := done;
      } else {
        next := DeclareGlobal(p, t, q, hash, whole, out0, done);
        done' := done + [t];
      }
    }

    /** The global scan at lines 262-342, from the start of the input, with the section's
        two placeholder bytes already written: every global's entry is appended and the
        global recorded in the tables; `main` and `update` are skipped with their bodies. */
    method ScanGlobals()
      requires Valid()
      modifies this, varHashes, varTypes
      ensures Valid() && src == old(src)
      ensures var g := GlobalScan(src, 0, old(Vars()), old(globalVarCount));
        Vars() == g.tb && globalVarCount == g.count && out == old(out) + GlobalBytes(g.types)
    {
      var p := 0;
      ghost var whole := GlobalScan(src, 0, Vars(), globalVarCount);
      ghost var done: seq<Byte> := [];
      while p < |src|
        invariant Valid() && src == old(src)
        invariant var rest := GlobalScan(src, p, Vars(), globalVarCount);
          whole == Globals(rest.tb, rest.count, done + rest.types)
        invariant out == old(out) + GlobalBytes(done)
        decreases |src| - p
      {
        if IsValidLeadingIdChar(src[p]) {
          p, done := ScanDeclaration(p, whole, old(out), done);
        } else {
          p := p + 1;
        }
      }
      assert done + [] == done;
    }

    /** The search at lines 667-683: one read of every entry below `total` whose hash is
        `hash`, each followed by the queued operator, which is then cleared. */
    method EmitReads(total: nat, hash: U32, queued: Byte) returns (q: Byte)
      requires Valid() && total <= CAPACITY
      modifies this
      ensures Valid() && src == old(src) && globalVarCount == old(globalVarCount) && overflow == old(overflow) && readPos == old(readPos)
      ensures var sc := Scope(varHashes[..], globalVarCount, total);
        var e := Run(LookupItems(sc, total, hash), queued);
        out == old(out) + e.code && q == e.pending
    {
      var sc := Scope(varHashes[..], globalVarCount, total);
      var found: seq<Byte> := [];
      q := queued;
      for i := 0 to total
        modifies {}
        invariant found == Run(LookupItems(sc, i, hash), queued).code
        invariant q == Run(LookupItems(sc, i, hash), queued).pending
      {
        LookupRunStep(sc, i, hash, queued);
        assert sc.hashes[i] == varHashes[i];
        if hash == varHashes[i] {
          found := found + GetVar(i, globalVarCount) + Flush(q);
          q := UNREACHABLE;
        }
      }
      out := out + found;
    }

    /** One token of compileExpression (lines 654-714): the reads of an identifier, the
        `f32.const` of a numeric literal, or an operator taking the queued one's place. */
    method EmitToken(total: nat, ghost sc: Scope, ghost text: seq<char>, e: nat, queued: Byte) returns (q: Byte)
      requires Valid() && total <= CAPACITY && readPos < e
      requires sc == Scope(varHashes[..], globalVarCount, total) && text == src
      modifies this
      ensures Valid() && src == old(src) && globalVarCount == old(globalVarCount) && overflow == old(overflow) && readPos == old(readPos)
      ensures var r := Run(TokenItems(text, lit, sc, readPos, e), queued);
        out == old(out) + r.code && q == r.pending
    {
      if IsValidLeadingIdChar(At(src, readPos)) {
        var hash := IdentifierHash(Span(src, readPos, e));
        q := EmitReads(total, hash, queued);
      } else if IsNumberLiteral(src, readPos) {
        out := out + [F32_CONST] + lit(LiteralText(src, readPos, e)) + Flush(queued);
        q := UNREACHABLE;
      } else {
        out := out + Flush(queued);
        q := OpFromOperator(At(src, readPos));
      }
    }

    /** compileExpression (lines 648-716): from the read position, tokens up to `;`, `)` or
        the end of the input, emitted by the queued-operator emitter; the read position is left
        on the token that ended the expression. */
    method CompileExpression(total: nat)
      requires Valid() && total <= CAPACITY
      modifies this
      ensures Valid() && src == old(src) && globalVarCount == old(globalVarCount) && overflow == old(overflow)
      ensures var sc := Scope(varHashes[..], globalVarCount, total);
        readPos == ExprItems(src, lit, sc, old(readPos)).stop
        && out == old(out) + ExprCode(src, lit, sc, old(readPos))
    {
      var sc := Scope(varHashes[..], globalVarCount, total);
      var text := src;
      var queued: Byte := UNREACHABLE;
      ghost var whole := ExprItems(text, lit, sc, readPos);
      ghost var out0 := out;
      ghost var from := readPos;
      readPos := FindNextToken(text, readPos);
      while readPos < |text| && text[readPos] != ';' && text[readPos] != ')'
        invariant Valid() && src == old(src) && globalVarCount == old(globalVarCount) && overflow == old(overflow) && src == text
        invariant readPos == NextToken(text, from)
        invariant ExprItems(text, lit, sc, from).stop == whole.stop
        invariant out0 + Run(whole.items, UNREACHABLE).code == out + Run(ExprItems(text, lit, sc, from).items, queued).code
        decreases |text| - readPos
      {
        var e := FindTokenEnd(text, readPos);
        ExprItemsStep(text, lit, sc, from, queued);
        ghost var tok := Run(TokenItems(text, lit, sc, readPos, e), queued);
        ghost var later := Run(ExprItems(text, lit, sc, e).items, tok.pending).code;
        ghost var before := out;
        queued := EmitToken(total, sc, text, e, queued);
        AppendAssociates(before, tok.code, later);
        from := e;
        readPos := FindNextToken(text, e);
      }
      ExprItemsDone(text, lit, sc, from);
    }

    /** The search at lines 576-580: the last entry below `total` with this hash becomes the
        assignment target; with none, the previous target stays. */
    method FindTarget(total: nat, hash: U32, target: Option<nat>) returns (r: Option<nat>)
      requires Valid() && total <= CAPACITY
      ensures r == LastMatch(varHashes[..], total, hash, target)
    {
      r := target;
      for i := 0 to total
        invariant r == LastMatch(varHashes[..], i, hash, target)
      {
        LastMatchStep(varHashes[..], i, hash, target);
        if hash == varHashes[i] {
          r := Some(i);
        }
      }
    }

    /** Lines 215-235: the Import section, whose size byte is patched once its entries are
        written. */
    method EmitImportSection()
      modifies this
      ensures src == old(src) && readPos == old(readPos) && globalVarCount == old(globalVarCount) && overflow == old(overflow)
      ensures out == old(out) + ImportSection()
    {
      var mark := |out| + 1;
      out := out + [SECTION_IMPORT, 0x80] + ImportEntries();
      PatchSectionByte(old(out), SECTION_IMPORT, 0x80, ImportEntries(), ByteOf(|ImportEntries()|));
      out := out[mark := ByteOf(|out| - mark - 1)];
    }

    /** Lines 256-348: the Global section's two placeholder bytes, the scan for globals, then
        the size and count bytes patched; the read position goes back to the start. */
    method EmitGlobalSection()
      requires Valid()
      modifies this, varHashes, varTypes
      ensures Valid() && src == old(src) && readPos == 0
      ensures var g := GlobalScan(src, 0, old(Vars()), old(globalVarCount));
        Vars() == g.tb && globalVarCount == g.count && out == old(out) + GlobalSection(g.count, g.types)
    {
      ghost var g := GlobalScan(src, 0, Vars(), globalVarCount);
      var mark := |out| + 1;
      out := out + [SECTION_GLOBAL, 0, 0];
      ScanGlobals();
      PatchSectionBytes(old(out), SECTION_GLOBAL, GlobalBytes(g.types), ByteOf(1 + |GlobalBytes(g.types)|), ByteOf(g.count));
      out := out[mark := ByteOf(|out| - mark - 1)][mark + 1 := ByteOf(globalVarCount)];
      readPos := 0;
    }

    /** Lines 353-369: the Export section, its two-byte size field patched after the entries
        (the model writes zeros where the source skips the field). */
    method EmitExportSection()
      modifies this
      ensures src == old(src) && readPos == old(readPos) && globalVarCount == old(globalVarCount) && overflow == old(overflow)
      ensures out == old(out) + ExportSection()
    {
      var mark := |out| + 1;
      out := out + [SECTION_EXPORT, 0, 0] + ExportEntries();
      PatchSectionSize(old(out), SECTION_EXPORT, ExportEntries());
      PatchSizeField(mark);
    }

    /** Lines 174-375: the header, the Type, Import, Function and Memory sections, the Global
        section with the globals found in the program, the Export section and the head of the
        Code section. */
    method EmitPrefix()
      requires Valid() && out == []
      modifies this, varHashes, varTypes
      ensures Valid() && src == old(src) && readPos == 0
      ensures var g := GlobalScan(src, 0, old(Vars()), old(globalVarCount));
        Vars() == g.tb && globalVarCount == g.count && out == Prefix(g)
    {
      ghost var g := GlobalScan(src, 0, Vars(), globalVarCount);
      out := MAGIC_AND_VERSION + TYPE_SECTION;
      EmitImportSection();
      out := out + FUNCTION_SECTION + MEMORY_SECTION;
      EmitGlobalSection();
      EmitExportSection();
      out := out + CODE_HEADER;
      PrefixRegroups(g);
    }

    /** Lines 382-396: `main` is compiled from the first `main(`, then `update` from the first
        `update(` after where `main` ended. */
    method CompileMainAndUpdate()
      requires Valid()
      modifies this, varHashes, varTypes
      ensures Valid() && src == old(src) && globalVarCount == old(globalVarCount)
      ensures var u := MainAndUpdate(old(Context()), old(out), old(Vars()));
        readPos == u.pos && out == u.out && Vars() == u.tb
    {
      readPos := FindFunction(src, 0, "main");
      CompileAndInsertFunction();
      readPos := FindFunction(src, readPos, "update");
      CompileAndInsertFunction();
    }

    /** Lines 382-401: both functions after the prefix, then the Code section's size field
        patched. */
    method EmitCode(ghost c: Ctx, ghost tb: Tables, ghost prefix: seq<Byte>)
      requires Valid() && c == Context() && tb == Vars() && prefix == out
      requires |prefix| >= 12 && prefix[..8] == MAGIC_AND_VERSION && prefix[|prefix| - 4] == SECTION_CODE
      modifies this, varHashes, varTypes
      ensures Valid() && src == old(src) && globalVarCount == old(globalVarCount)
      ensures var m := Framed(prefix, MainAndUpdate(c, prefix, tb), c.globals);
        out == m.out && Vars() == m.tb
    {
      var mark := |out| - 3;
      CompileMainAndUpdate();
      PatchSizeField(mark);
    }

    /** Lines 174-401, once the output, the count of globals and the overflow flag are reset. */
    method Assemble()
      requires Valid() && out == [] && globalVarCount == 0 && !overflow
      modifies this, varHashes, varTypes
      ensures Valid() && src == old(src)
      ensures var m := ModuleBytes(src, lit, old(Vars()));
        out == m.out && Vars() == m.tb && globalVarCount == m.globals
    {
      ghost var tb := Vars();
      ghost var g := GlobalScan(src, 0, tb, 0);
      ghost var prefix := Prefix(g);
      ghost var m := ModuleBytes(src, lit, tb);
      assert m == Framed(prefix, MainAndUpdate(Ctx(src, lit, g.count), prefix, g.tb), g.count);
      EmitPrefix();
      EmitCode(Context(), Vars(), out);
    }

    /** getWasmFromCpp (src/cpp.cpp:169-428): the module for `source`, written from the start
        of the output; the count of globals is reset, the tables keep the entries earlier runs
        left in them.  The result packs the module's address above its 32-bit size. */
    method GetWasmFromCpp(source: seq<char>, moduleAddress: bv32) returns (packed: bv32)
      requires Valid()
      modifies this, varHashes, varTypes
      ensures Valid() && src == source
      ensures var m := ModuleBytes(source, lit, Tables(old(varHashes[..]), old(varTypes[..]), false));
        out == m.out && Vars() == m.tb && globalVarCount == m.globals
      ensures packed == Pack(moduleAddress, SizeWord(|out|))
    {
      Start(source);
      Assemble();
      packed := Pack(moduleAddress, SizeWord(|out|));
    }

    /** Lines 171-175 and 262-263: the count of globals reset, the output begun right after the
        input, the read position at its start; the tables keep their entries and the overflow
        flag is cleared. */
    method Start(source: seq<char>)
      requires Valid()
      modifies this
      ensures Valid() && src == source && readPos == 0 && out == [] && globalVarCount == 0
      ensures Vars() == Tables(old(varHashes[..]), old(varTypes[..]), false)
    {
      src := source;
      readPos := 0;
      out := [];
      globalVarCount := 0;
      overflow := false;
    }
  }
}
