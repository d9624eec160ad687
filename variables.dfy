/** The shared variable tables of src/cpp.cpp (varHashes, varTypes): globals occupy the first
    entries and each function's parameters and locals follow them.  The tables have 32 slots; a
    record that finds no free slot sets an overflow flag instead of writing out of bounds. */
module Variables {
  import opened Wasm

  const CAPACITY: nat := 32

  datatype Tables = Tables(hashes: seq<U32>, types: seq<Byte>, overflow: bool)
  {
    predicate Valid()
    {
      |hashes| == CAPACITY && |types| == CAPACITY
    }
  }

  /** `varTypes[count] = t; varHashes[count] = hash; ++count;` with the capacity made explicit:
      the entry at `count` is written and the count grows, or nothing is written and the
      overflow flag is raised. */
  function Record(tb: Tables, count: nat, hash: U32, t: Byte): (r: (Tables, nat))
    requires tb.Valid() && count <= CAPACITY
    ensures r.0.Valid() && r.1 <= CAPACITY
    ensures count < CAPACITY ==>
      r.1 == count + 1 && r.0.hashes[count] == hash && r.0.types[count] == t && r.0.overflow == tb.overflow
    ensures count == CAPACITY ==> r.1 == count && r.0.overflow
    ensures forall i :: 0 <= i < CAPACITY && i != count ==>
      r.0.hashes[i] == tb.hashes[i] && r.0.types[i] == tb.types[i]
  {
    if count < CAPACITY then (Tables(tb.hashes[count := hash], tb.types[count := t], tb.overflow), count + 1)
    else (tb.(overflow := true), count)
  }

  /** The indices below `total` whose hash is `hash`, in increasing order. */
  function Matches(hashes: seq<U32>, total: nat, hash: U32): (m: seq<nat>)
    requires total <= |hashes|
    ensures forall k :: 0 <= k < |m| ==> m[k] < total && hashes[m[k]] == hash
    ensures forall i :: 0 <= i < total && hashes[i] == hash ==> i in m
    ensures forall j, k :: 0 <= j < k < |m| ==> m[j] < m[k]
  {
    if total == 0 then []
    else Matches(hashes, total - 1, hash) + (if hashes[total - 1] == hash then [total - 1] else [])
  }

  /** The assignment target chosen by the linear search of an assignment: the last matching
      index, or the previous target when nothing matches (LastMatchWins). */
  function LastMatch(hashes: seq<U32>, total: nat, hash: U32, target: Option<nat>): (r: Option<nat>)
    requires total <= |hashes|
    ensures r != target ==>
      r.Some? && r.value < total && hashes[r.value] == hash && forall i :: r.value < i < total ==> hashes[i] != hash
    ensures (exists i :: 0 <= i < total && hashes[i] == hash) ==> r.Some? && r.value < total
  {
    var m := Matches(hashes, total, hash);
    if m == [] then target else Some(m[|m| - 1])
  }

  /** Last match wins: when some entry below `total` has the hash, the target is a matching
      entry with no match after it, whatever the previous target was; when none has it, the
      previous target is kept. */
  lemma LastMatchWins(hashes: seq<U32>, total: nat, hash: U32, target: Option<nat>)
    requires total <= |hashes|
    ensures var r := LastMatch(hashes, total, hash, target);
      (exists i :: 0 <= i < total && hashes[i] == hash) ==>
        r.Some? && r.value < total && hashes[r.value] == hash && forall i :: r.value < i < total ==> hashes[i] != hash
    ensures (forall i :: 0 <= i < total ==> hashes[i] != hash) ==> LastMatch(hashes, total, hash, target) == target
  {
    var m := Matches(hashes, total, hash);
    if m != [] {
      assert forall k :: 0 <= k < |m| ==> m[k] <= m[|m| - 1];
    }
  }

  /** The converse: a matching entry with no match after it is the target chosen, whatever
      the previous target was. */
  lemma LastMatchIsLast(hashes: seq<U32>, total: nat, hash: U32, target: Option<nat>, j: nat)
    requires total <= |hashes| && j < total && hashes[j] == hash
    requires forall i :: j < i < total ==> hashes[i] != hash
    ensures LastMatch(hashes, total, hash, target) == Some(j)
  {
    LastMatchWins(hashes, total, hash, target);
  }

  /** The instruction that reads variable i: globals by their own index, locals (parameters
      included) by their offset past the last global. */
  function GetVar(i: nat, globals: nat): (code: seq<Byte>)
    ensures |code| == 2 && (code[0] == GET_GLOBAL || code[0] == GET_LOCAL)
    ensures code[0] == GET_GLOBAL <==> i < globals
  {
    if i < globals then [GET_GLOBAL, ByteOf(i)] else [GET_LOCAL, ByteOf(i - globals)]
  }

  /** The instruction that writes variable i, indexed as GetVar. */
  function SetVar(i: nat, globals: nat): (code: seq<Byte>)
    ensures |code| == 2 && (code[0] == SET_GLOBAL || code[0] == SET_LOCAL)
    ensures code[0] == SET_GLOBAL <==> i < globals
  {
    if i < globals then [SET_GLOBAL, ByteOf(i)] else [SET_LOCAL, ByteOf(i - globals)]
  }

  /** Which variable an instruction built by GetVar or SetVar addresses. */
  function VarOf(code: seq<Byte>, globals: nat): Option<nat>
  {
    if |code| != 2 then None
    else if code[0] == GET_GLOBAL || code[0] == SET_GLOBAL then Some(code[1] as nat)
    else if code[0] == GET_LOCAL || code[0] == SET_LOCAL then Some(globals + code[1])
    else None
  }

  /** The index mapping is well defined: while globals and local offsets fit in one byte,
      reading back the instruction for variable i yields i, a global is addressed as a global
      and a local as a local, and reading and writing address the same variable. */
  lemma VarIndexRoundTrip(i: nat, globals: nat)
    requires globals <= 256 && i < globals + 256
    ensures VarOf(GetVar(i, globals), globals) == Some(i)
    ensures VarOf(SetVar(i, globals), globals) == Some(i)
    ensures (GetVar(i, globals)[0] == GET_GLOBAL) <==> i < globals
    ensures (SetVar(i, globals)[0] == SET_GLOBAL) <==> i < globals
    ensures GetVar(i, globals)[1] == SetVar(i, globals)[1]
  {
  }

  /** Two distinct variables are never read with the same instruction. */
  lemma GetVarInjective(i: nat, j: nat, globals: nat)
    requires globals <= 256 && i < globals + 256 && j < globals + 256
    ensures GetVar(i, globals) == GetVar(j, globals) ==> i == j
  {
    VarIndexRoundTrip(i, globals);
    VarIndexRoundTrip(j, globals);
  }
}
