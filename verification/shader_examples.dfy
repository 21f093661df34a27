/**
  A worked load: two files that include each other.
*/
module ShaderExamples {
  import opened TextSearch
  import opened ShaderProcessor
  import opened ShaderProperties

  /** Path operations for a flat directory: every path is already absolute,
      the parent directory is empty, and the include name `b` names file
      "b" while every other name names file "a". */
  function CycleOps(): PathOps
  {
    PathOps(p => p, p => "", (d, n) => if n == [0x62] then "b" else "a", p => "")
  }

  /** File "a" is `x#include<b>` and file "b" is `y#include<a>`. */
  const A: Bytes := [0x78] + INCLUDE + [LT, 0x62, GT]
  const B: Bytes := [0x79] + INCLUDE + [LT, 0x61, GT]

  /** A one-byte prefix followed by `#include<n>` holds one directive, at offset 1. */
  lemma DirectiveOf(code: Bytes, c: byte, name: byte)
    requires code == [c] + INCLUDE + [LT, name, GT]
    requires c != 0x23 && name != LT && name != GT
    ensures NextDirective(code, 0) == Some(Directive(1, 9, 11))
  {
    assert code[0..8][0] == c;
    assert code[1..9] == INCLUDE;
    assert !OccursAt(code, INCLUDE, 0);
    FindReturnsFirst(code, INCLUDE, 0, 1);
    forall m: nat | 1 <= m < 12
      ensures OccursAt(code, [LT], m) <==> m == 9
      ensures OccursAt(code, [GT], m) <==> m == 11
    {
      OccursAtByte(code, LT, m);
      OccursAtByte(code, GT, m);
    }
    FindReturnsFirst(code, [LT], 1, 9);
    FindReturnsFirst(code, [GT], 9, 11);
  }

  /** Loading "a" reads "a", then "b"; the include of "a" inside "b" meets
      the guard and contributes nothing, so the load ends with `xy`. */
  lemma CycleLoads()
    ensures ReadTextFile(CycleOps(), map["a" := A, "b" := B], "a", {}) == Loaded([0x78, 0x79], {"a", "b"}, ["a", "b"])
  {
    var fs := map["a" := A, "b" := B];
    DirectiveOf(A, 0x78, 0x62);
    DirectiveOf(B, 0x79, 0x61);
    var ops := CycleOps();
    assert StripBom(A) == A && StripBom(B) == B;
    assert A[10 .. 11] == [0x62] && B[10 .. 11] == [0x61];
    var g: set<Path> := {"a", "b"};
    // Inside b: the include of a hits the guard.
    assert ReadTextFile(ops, fs, "a", g) == Loaded([], g, []);
    assert B[..1] + [] + B[12..] == [0x79];
    assert NextDirective([0x79], 1).None?;
    ExpandStep(ops, fs, "b", B, 0, g, Directive(1, 9, 11));
    assert ExpandIncludes(ops, fs, "b", B, 0, g) == Loaded([0x79], g, []);
    assert {"a"} + {"b"} == g;
    assert ReadTextFile(ops, fs, "b", {"a"}) == Loaded([0x79], g, ["b"]);
    // Back in a.
    assert A[..1] + [0x79] + A[12..] == [0x78, 0x79];
    assert NextDirective([0x78, 0x79], 1).None?;
    ExpandStep(ops, fs, "a", A, 0, {"a"}, Directive(1, 9, 11));
    assert ExpandIncludes(ops, fs, "a", A, 0, {"a"}) == Loaded([0x78, 0x79], g, ["b"]);
    assert {} + {"a"} == {"a"};
    assert ["a"] + ["b"] == ["a", "b"];
  }
}
