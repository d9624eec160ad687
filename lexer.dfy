/** Character classes, the identifier hash and the scanners of src/cpp.cpp.  The input is a
    sequence of one-byte characters; a position at or past its end reads as NUL, which is what
    the compiler finds there (the first byte of the module header it has already written). */
module Lexer {
  import opened Wasm

  const NUL: char := '\0'

  /** The character the compiler reads at offset i: the input's own inside it, NUL outside. */
  function At(src: seq<char>, i: int): (ch: char)
    ensures 0 <= i < |src| ==> ch == src[i]
    ensures (i < 0 || |src| <= i) ==> ch == NUL
  {
    if 0 <= i < |src| then src[i] else NUL
  }

  /** The characters from p up to q, each read with At. */
  function Span(src: seq<char>, p: nat, q: nat): (t: seq<char>)
    requires p <= q
    ensures |t| == q - p
    ensures forall k :: 0 <= k < q - p ==> t[k] == At(src, p + k)
    ensures q <= |src| ==> t == src[p..q]
  {
    seq(q - p, k requires 0 <= k < q - p => At(src, p + k))
  }

  predicate IsAlpha(c: char)
  {
    ('a' <= c <= 'z') || ('A' <= c <= 'Z')
  }

  predicate IsDigit(c: char)
  {
    '0' <= c <= '9'
  }

  predicate IsValidLeadingIdChar(c: char)
  {
    IsAlpha(c) || c == '_'
  }

  predicate IsValidNonLeadingIdChar(c: char)
  {
    IsValidLeadingIdChar(c) || IsDigit(c)
  }

  /** A `char` promoted to an integer: the byte is signed. */
  function SignedChar(c: char): (v: int)
    ensures -128 <= v < 128
    ensures v % 256 == (c as int) % 256
  {
    var b := (c as int) % 256;
    if b < 128 then b else b - 256
  }

  /** One step of getIdentifierHash: `hash += (hash << 2) + c`, in 32 bits.  The shift loses
      the high bits of `4 * hash`, which does not change the sum modulo 2^32. */
  function Mix(h: U32, c: char): (r: U32)
    ensures r == (h + (4 * h) % TWO32 + SignedChar(c)) % TWO32
  {
    (5 * h + SignedChar(c)) % TWO32
  }

  /** The hash after starting from h and mixing in the characters of s from left to right. */
  function HashFrom(h: U32, s: seq<char>): U32
    decreases |s|
  {
    if s == [] then h else HashFrom(Mix(h, s[0]), s[1..])
  }

  /** The value getIdentifierHash computes for s. */
  function Hash(s: seq<char>): U32
  {
    HashFrom(0, s)
  }

  /** The empty identifier hashes to 0, and one more character c turns the hash h of what
      precedes it into `(5 * h + c) mod 2^32`, c read as a signed byte. */
  lemma {:induction false} HashAppend(s: seq<char>, c: char)
    ensures Hash([]) == 0
    ensures Hash(s + [c]) == Mix(Hash(s), c)
  {
    HashFromAppend(0, s, c);
  }

  lemma {:induction false} HashFromAppend(h: U32, s: seq<char>, c: char)
    ensures HashFrom(h, s + [c]) == Mix(HashFrom(h, s), c)
    decreases |s|
  {
    if s == [] {
      assert [] + [c] == [c];
      assert [c][1..] == [];
    } else {
      assert (s + [c])[1..] == s[1..] + [c];
      HashFromAppend(Mix(h, s[0]), s[1..], c);
    }
  }

  /** getIdentifierHash (src/cpp.cpp:37-44). */
  method IdentifierHash(s: seq<char>) returns (hash: U32)
    ensures hash == Hash(s)
  {
    hash := 0;
    for i := 0 to |s|
      invariant HashFrom(hash, s[i..]) == Hash(s)
    {
      assert s[i..][1..] == s[i + 1..];
      hash := (hash + (4 * hash) % TWO32 + SignedChar(s[i])) % TWO32;
    }
  }

  predicate StartsNumber(c: char)
  {
    c == '-' || c == '.' || IsDigit(c)
  }

  predicate IsNumberChar(c: char)
  {
    IsDigit(c) || c == '.' || c == 'f'
  }

  predicate IsIdentifierChar(c: char)
  {
    IsValidNonLeadingIdChar(c) || c == ':'
  }

  /** The end of the run of number characters starting at q. */
  function NumberEnd(src: seq<char>, q: nat): (r: nat)
    decreases |src| - q
    ensures q <= r && !IsNumberChar(At(src, r))
    ensures forall k :: q <= k < r ==> IsNumberChar(At(src, k))
    ensures q <= |src| ==> r <= |src|
  {
    if q < |src| && IsNumberChar(src[q]) then NumberEnd(src, q + 1) else q
  }

  /** The end of the run of identifier characters starting at q. */
  function IdentifierEnd(src: seq<char>, q: nat): (r: nat)
    decreases |src| - q
    ensures q <= r && !IsIdentifierChar(At(src, r))
    ensures forall k :: q <= k < r ==> IsIdentifierChar(At(src, k))
    ensures q <= |src| ==> r <= |src|
  {
    if q < |src| && IsIdentifierChar(src[q]) then IdentifierEnd(src, q + 1) else q
  }

  /** findTokenEnd (src/cpp.cpp:79-95): a token always has at least one character and is the
      longest run of its class. */
  function TokenEnd(src: seq<char>, p: nat): (q: nat)
    ensures p < q
    ensures p < |src| ==> q <= |src|
    ensures StartsNumber(At(src, p)) ==>
      (forall k :: p < k < q ==> IsNumberChar(At(src, k))) && !IsNumberChar(At(src, q))
    ensures IsValidLeadingIdChar(At(src, p)) ==>
      (forall k :: p < k < q ==> IsIdentifierChar(At(src, k))) && !IsIdentifierChar(At(src, q))
    ensures !StartsNumber(At(src, p)) && !IsValidLeadingIdChar(At(src, p)) ==> q == p + 1
  {
    var c := At(src, p);
    if StartsNumber(c) then NumberEnd(src, p + 1)
    else if IsValidLeadingIdChar(c) then IdentifierEnd(src, p + 1)
    else p + 1
  }

  /** findNextIdentifier (src/cpp.cpp:69-76), stopping at the end of the input. */
  function NextIdentifier(src: seq<char>, p: nat): (r: nat)
    decreases |src| - p
    ensures p <= r
    ensures forall k :: p <= k < r ==> !IsValidLeadingIdChar(At(src, k))
    ensures r < |src| ==> IsValidLeadingIdChar(src[r])
    ensures r >= |src| ==> r == if p < |src| then |src| else p
  {
    if p >= |src| || IsValidLeadingIdChar(src[p]) then p else NextIdentifier(src, p + 1)
  }

  predicate IsBlank(c: char)
  {
    c == ' ' || c == '\n'
  }

  /** findNextToken (src/cpp.cpp:115-121): skip spaces and newlines, not beyond the end. */
  function NextToken(src: seq<char>, p: nat): (r: nat)
    decreases |src| - p
    ensures p <= r
    ensures forall k :: p <= k < r ==> IsBlank(At(src, k))
    ensures r < |src| ==> !IsBlank(src[r])
    ensures r >= |src| ==> r == if p < |src| then |src| else p
  {
    if p < |src| && IsBlank(src[p]) then NextToken(src, p + 1) else p
  }

  /** `while (*p++ != c);`, stopping at the end of the input: one past the first c. */
  function SkipPast(src: seq<char>, p: nat, c: char): (r: nat)
    decreases |src| - p
    ensures p <= r
    ensures forall k :: p <= k < r && At(src, k) == c ==> k == r - 1
    ensures r < |src| ==> p < r && At(src, r - 1) == c
    ensures r >= |src| ==> r == |src| || r == p
  {
    if p >= |src| then p
    else if src[p] == c then p + 1
    else SkipPast(src, p + 1, c)
  }

  /** `while (*p != c) ++p;`, stopping at the end of the input: the first c. */
  function SkipTo(src: seq<char>, p: nat, c: char): (r: nat)
    decreases |src| - p
    ensures p <= r
    ensures forall k :: p <= k < r ==> At(src, k) != c
    ensures r < |src| ==> src[r] == c
    ensures r >= |src| ==> r == if p < |src| then |src| else p
  {
    if p >= |src| || src[p] == c then p else SkipTo(src, p + 1, c)
  }

  method FindTokenEnd(src: seq<char>, p: nat) returns (q: nat)
    ensures q == TokenEnd(src, p)
  {
    q := p;
    var c := At(src, p);
    if StartsNumber(c) {
      q := q + 1;
      while q < |src| && IsNumberChar(src[q])
        invariant p < q
        invariant NumberEnd(src, q) == NumberEnd(src, p + 1)
        decreases |src| - q
      {
        q := q + 1;
      }
    } else if IsValidLeadingIdChar(c) {
      q := q + 1;
      while q < |src| && IsIdentifierChar(src[q])
        invariant p < q
        invariant IdentifierEnd(src, q) == IdentifierEnd(src, p + 1)
        decreases |src| - q
      {
        q := q + 1;
      }
    } else {
      q := q + 1;
    }
  }

  method FindNextIdentifier(src: seq<char>, p: nat) returns (r: nat)
    ensures r == NextIdentifier(src, p)
  {
    r := p;
    while r < |src| && !IsValidLeadingIdChar(src[r])
      invariant p <= r
      invariant NextIdentifier(src, r) == NextIdentifier(src, p)
      decreases |src| - r
    {
      r := r + 1;
    }
  }

  method FindNextToken(src: seq<char>, p: nat) returns (r: nat)
    ensures r == NextToken(src, p)
  {
    r := p;
    while r < |src| && IsBlank(src[r])
      invariant p <= r
      invariant NextToken(src, r) == NextToken(src, p)
      decreases |src| - r
    {
      r := r + 1;
    }
  }

  method FindPast(src: seq<char>, p: nat, c: char) returns (r: nat)
    ensures r == SkipPast(src, p, c)
  {
    r := p;
    while r < |src| && src[r] != c
      invariant p <= r
      invariant SkipPast(src, r, c) == SkipPast(src, p, c)
      decreases |src| - r
    {
      r := r + 1;
    }
    if r < |src| {
      r := r + 1;
    }
  }

  method FindChar(src: seq<char>, p: nat, c: char) returns (r: nat)
    ensures r == SkipTo(src, p, c)
  {
    r := p;
    while r < |src| && src[r] != c
      invariant p <= r
      invariant SkipTo(src, r, c) == SkipTo(src, p, c)
      decreases |src| - r
    {
      r := r + 1;
    }
  }
}
