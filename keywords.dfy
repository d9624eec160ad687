/** The two lookup tables of src/cpp.cpp: C++ type names matched by hash, and one-character
    operators mapped to f32 opcodes. */
module Keywords {
  import opened Wasm
  import opened Lexer

  // The values HASH(...) yields at compile time for the names the compiler knows; the lemmas
  // below show each is the hash of its name.
  const HASH_INT: U32 := 3291
  const HASH_LONG: U32 := 16928
  const HASH_FLOAT: U32 := 80626
  const HASH_DOUBLE: U32 := 399591
  const HASH_IF: U32 := 627
  const HASH_DRAW_CIRCLE: U32 := 249573616
  const HASH_COUT: U32 := 55780226
  const HASH_MAIN: U32 := 16685
  const HASH_UPDATE: U32 := 451231

  /** One step of the hash with every quantity named, so that a known hash can be carried
      through a name one character at a time. */
  lemma HashStep(h: U32, s: seq<char>, c: char, rest: seq<char>, h': U32)
    requires s == [c] + rest && h' == (5 * h + SignedChar(c)) % TWO32
    ensures HashFrom(h, s) == HashFrom(h', rest)
  {
    assert s[1..] == rest;
  }

  lemma HashOfInt()
    ensures Hash("int") == HASH_INT
  {
    calc {
      Hash("int");
      { HashStep(0, "int", 'i', "nt", 105); }
      HashFrom(105, "nt");
      { HashStep(105, "nt", 'n', "t", 635); }
      HashFrom(635, "t");
      { HashStep(635, "t", 't', "", 3291); }
      HashFrom(3291, "");
    }
  }

  lemma HashOfLong()
    ensures Hash("long") == HASH_LONG
  {
    calc {
      Hash("long");
      { HashStep(0, "long", 'l', "ong", 108); }
      HashFrom(108, "ong");
      { HashStep(108, "ong", 'o', "ng", 651); }
      HashFrom(651, "ng");
      { HashStep(651, "ng", 'n', "g", 3365); }
      HashFrom(3365, "g");
      { HashStep(3365, "g", 'g', "", 16928); }
      HashFrom(16928, "");
    }
  }

  lemma HashOfFloat()
    ensures Hash("float") == HASH_FLOAT
  {
    calc {
      Hash("float");
      { HashStep(0, "float", 'f', "loat", 102); }
      HashFrom(102, "loat");
      { HashStep(102, "loat", 'l', "oat", 618); }
      HashFrom(618, "oat");
      { HashStep(618, "oat", 'o', "at", 3201); }
      HashFrom(3201, "at");
      { HashStep(3201, "at", 'a', "t", 16102); }
      HashFrom(16102, "t");
      { HashStep(16102, "t", 't', "", 80626); }
      HashFrom(80626, "");
    }
  }

  lemma HashOfDouble()
    ensures Hash("double") == HASH_DOUBLE
  {
    calc {
      Hash("double");
      { HashStep(0, "double", 'd', "ouble", 100); }
      HashFrom(100, "ouble");
      { HashStep(100, "ouble", 'o', "uble", 611); }
      HashFrom(611, "uble");
      { HashStep(611, "uble", 'u', "ble", 3172); }
      HashFrom(3172, "ble");
      { HashStep(3172, "ble", 'b', "le", 15958); }
      HashFrom(15958, "le");
      { HashStep(15958, "le", 'l', "e", 79898); }
      HashFrom(79898, "e");
      { HashStep(79898, "e", 'e', "", 399591); }
      HashFrom(399591, "");
    }
  }

  lemma HashOfIf()
    ensures Hash("if") == HASH_IF
  {
    calc {
      Hash("if");
      { HashStep(0, "if", 'i', "f", 105); }
      HashFrom(105, "f");
      { HashStep(105, "f", 'f', "", 627); }
      HashFrom(627, "");
    }
  }

  lemma HashOfDrawCircle()
    ensures Hash("drawCircle") == HASH_DRAW_CIRCLE
  {
    calc {
      Hash("drawCircle");
      { HashStep(0, "drawCircle", 'd', "rawCircle", 100); }
      HashFrom(100, "rawCircle");
      { HashStep(100, "rawCircle", 'r', "awCircle", 614); }
      HashFrom(614, "awCircle");
      { HashStep(614, "awCircle", 'a', "wCircle", 3167); }
      HashFrom(3167, "wCircle");
      { HashStep(3167, "wCircle", 'w', "Circle", 15954); }
      HashFrom(15954, "Circle");
      { HashStep(15954, "Circle", 'C', "ircle", 79837); }
      HashFrom(79837, "ircle");
      { HashStep(79837, "ircle", 'i', "rcle", 399290); }
      HashFrom(399290, "rcle");
      { HashStep(399290, "rcle", 'r', "cle", 1996564); }
      HashFrom(1996564, "cle");
      { HashStep(1996564, "cle", 'c', "le", 9982919); }
      HashFrom(9982919, "le");
      { HashStep(9982919, "le", 'l', "e", 49914703); }
      HashFrom(49914703, "e");
      { HashStep(49914703, "e", 'e', "", 249573616); }
      HashFrom(249573616, "");
    }
  }

  lemma HashOfCout()
    ensures Hash("std::cout") == HASH_COUT
  {
    calc {
      Hash("std::cout");
      { HashStep(0, "std::cout", 's', "td::cout", 115); }
      HashFrom(115, "td::cout");
      { HashStep(115, "td::cout", 't', "d::cout", 691); }
      HashFrom(691, "d::cout");
      { HashStep(691, "d::cout", 'd', "::cout", 3555); }
      HashFrom(3555, "::cout");
      { HashStep(3555, "::cout", ':', ":cout", 17833); }
      HashFrom(17833, ":cout");
      { HashStep(17833, ":cout", ':', "cout", 89223); }
      HashFrom(89223, "cout");
      { HashStep(89223, "cout", 'c', "out", 446214); }
      HashFrom(446214, "out");
      { HashStep(446214, "out", 'o', "ut", 2231181); }
      HashFrom(2231181, "ut");
      { HashStep(2231181, "ut", 'u', "t", 11156022); }
      HashFrom(11156022, "t");
      { HashStep(11156022, "t", 't', "", 55780226); }
      HashFrom(55780226, "");
    }
  }

  lemma HashOfMain()
    ensures Hash("main") == HASH_MAIN
  {
    calc {
      Hash("main");
      { HashStep(0, "main", 'm', "ain", 109); }
      HashFrom(109, "ain");
      { HashStep(109, "ain", 'a', "in", 642); }
      HashFrom(642, "in");
      { HashStep(642, "in", 'i', "n", 3315); }
      HashFrom(3315, "n");
      { HashStep(3315, "n", 'n', "", 16685); }
      HashFrom(16685, "");
    }
  }

  lemma HashOfUpdate()
    ensures Hash("update") == HASH_UPDATE
  {
    calc {
      Hash("update");
      { HashStep(0, "update", 'u', "pdate", 117); }
      HashFrom(117, "pdate");
      { HashStep(117, "pdate", 'p', "date", 697); }
      HashFrom(697, "date");
      { HashStep(697, "date", 'd', "ate", 3585); }
      HashFrom(3585, "ate");
      { HashStep(3585, "ate", 'a', "te", 18022); }
      HashFrom(18022, "te");
      { HashStep(18022, "te", 't', "e", 90226); }
      HashFrom(90226, "e");
      { HashStep(90226, "e", 'e', "", 451231); }
      HashFrom(451231, "");
    }
  }

  /** Each constant is the hash of the name it stands for, as the compile-time HASH(...)
      computes it. */
  lemma KnownHashes()
    ensures Hash("int") == HASH_INT && Hash("long") == HASH_LONG && Hash("float") == HASH_FLOAT
    ensures Hash("double") == HASH_DOUBLE && Hash("if") == HASH_IF
    ensures Hash("drawCircle") == HASH_DRAW_CIRCLE && Hash("std::cout") == HASH_COUT
    ensures Hash("main") == HASH_MAIN && Hash("update") == HASH_UPDATE
  {
    HashOfInt();
    HashOfLong();
    HashOfFloat();
    HashOfDouble();
    HashOfIf();
    HashOfDrawCircle();
    HashOfCout();
    HashOfMain();
    HashOfUpdate();
  }

  predicate IsValueType(t: Byte)
  {
    t == I32 || t == I64 || t == F32 || t == F64
  }

  /** The C++ spelling of each value type. */
  function CppTypeName(t: Byte): string
    requires IsValueType(t)
  {
    if t == I32 then "int" else if t == I64 then "long" else if t == F32 then "float" else "double"
  }

  /** getWasmTypeFromCppName (src/cpp.cpp:143-157). */
  function TypeFromHash(hash: U32): (t: Byte)
    ensures t == VOID || IsValueType(t)
  {
    if hash == HASH_INT then I32
    else if hash == HASH_LONG then I64
    else if hash == HASH_FLOAT then F32
    else if hash == HASH_DOUBLE then F64
    else VOID
  }

  /** The type table and the type names are inverse: each value type's name hashes to it, and a
      hash maps to a value type only if it is the hash of that type's name; every other hash,
      such as that of `if`, `void` or a variable's name, maps to the empty type. */
  lemma TypeNamesRoundTrip(t: Byte, hash: U32)
    ensures IsValueType(t) ==> TypeFromHash(Hash(CppTypeName(t))) == t
    ensures TypeFromHash(hash) != VOID ==> hash == Hash(CppTypeName(TypeFromHash(hash)))
    ensures TypeFromHash(HASH_IF) == VOID && TypeFromHash(HASH_DRAW_CIRCLE) == VOID
    ensures TypeFromHash(HASH_COUT) == VOID
  {
    HashOfInt();
    HashOfLong();
    HashOfFloat();
    HashOfDouble();
    if IsValueType(t) {
      assert Hash(CppTypeName(t)) == if t == I32 then HASH_INT else if t == I64 then HASH_LONG
        else if t == F32 then HASH_FLOAT else HASH_DOUBLE;
    }
  }

  const OPERATORS: string := "+-*/<>"

  /** getWasmOpFromOperator (src/cpp.cpp:123-141). */
  function OpFromOperator(c: char): (op: Byte)
    ensures op != UNREACHABLE <==> c in OPERATORS
    ensures op in {UNREACHABLE, F32_ADD, F32_SUB, F32_MUL, F32_DIV, F32_LT, F32_GT}
  {
    match c
    case '+' => F32_ADD
    case '-' => F32_SUB
    case '*' => F32_MUL
    case '/' => F32_DIV
    case '<' => F32_LT
    case '>' => F32_GT
    case _ => UNREACHABLE
  }

  /** The source character of each operator opcode. */
  function OperatorChar(op: Byte): char
  {
    if op == F32_ADD then '+' else if op == F32_SUB then '-' else if op == F32_MUL then '*'
    else if op == F32_DIV then '/' else if op == F32_LT then '<' else if op == F32_GT then '>'
    else NUL
  }

  /** The operator table is one-to-one on its six characters, so a queued opcode of 0 can only
      mean that no operator is pending. */
  lemma OperatorsRoundTrip(c: char, op: Byte)
    ensures c in OPERATORS ==> OperatorChar(OpFromOperator(c)) == c
    ensures op != UNREACHABLE && op == OpFromOperator(OperatorChar(op)) ==> OperatorChar(op) in OPERATORS
    ensures OpFromOperator(',') == UNREACHABLE && OpFromOperator('=') == UNREACHABLE
  {
  }
}
