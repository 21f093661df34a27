/**
  The loader with its include guard keyed as the C++ keys it.

  `readTextFile` inserts `fs::absolute(file)` into the guard, but opens
  `file` itself.  On POSIX systems `fs::absolute` does not normalise `.`
  or `..` components, while the operating system resolves them when the
  file is opened.  Two spellings of one file therefore pass the guard
  separately.  Here `resolve` is what opening does to an absolute path.
  Because this version need not terminate, it is written with fuel: `None`
  means the fuel ran out before the load finished.

  `ShaderProcessor.ReadTextFile` is the corrected loader: the guard holds
  the same key that identifies the file in the file system.
*/
module ShaderAliasing {
  import opened TextSearch
  import opened ShaderProcessor
  import opened ShaderProperties

  /** `readTextFile` as written: the guard gets `absolute(file)`, the file
      is opened at `resolve(absolute(file))`. */
  function LoadFuel(ops: PathOps, resolve: Path -> Path, fs: FileSystem, file: Path, guard: set<Path>, fuel: nat)
    : (r: Option<Loaded>)
    ensures r.Some? ==> guard <= r.value.guard && ops.absolute(file) in r.value.guard
    decreases fuel, 0
  {
    if fuel == 0 then None
    else
      var abs := ops.absolute(file);
      if abs in guard then Some(Loaded([], guard, []))
      else if resolve(abs) !in fs then Some(Loaded([], guard + {abs}, []))
      else
        match ScanFuel(ops, resolve, fs, file, StripBom(fs[resolve(abs)]), 0, guard + {abs}, fuel - 1)
        case None => None
        case Some(r) => Some(Loaded(r.text, r.guard, [resolve(abs)] + r.files))
  }

  /** The scanning loop of the version above. */
  function ScanFuel(ops: PathOps, resolve: Path -> Path, fs: FileSystem, file: Path, code: Bytes, pos: nat,
                    guard: set<Path>, fuel: nat): (r: Option<Loaded>)
    requires pos <= |code|
    ensures r.Some? ==> guard <= r.value.guard
    decreases fuel, 2
  {
    match NextDirective(code, pos)
    case None => Some(Loaded(code, guard, []))
    case Some(d) => DirectiveFuel(ops, resolve, fs, file, code, d, guard, fuel)
  }

  /** One round of that loop, for the directive `d`. */
  function DirectiveFuel(ops: PathOps, resolve: Path -> Path, fs: FileSystem, file: Path, code: Bytes, d: Directive,
                         guard: set<Path>, fuel: nat): (r: Option<Loaded>)
    requires d.start + |INCLUDE| <= d.open < d.close < |code|
    ensures r.Some? ==> guard <= r.value.guard
    decreases fuel, 1
  {
    if fuel == 0 then None
    else
      var inc := LoadFuel(ops, resolve, fs, ops.join(ops.parent(file), code[d.open + 1 .. d.close]), guard, fuel);
      if inc.None? then None
      else
        var rest := ScanFuel(ops, resolve, fs, file, code[..d.start] + inc.value.text + code[d.close + 1..], d.start,
                             inc.value.guard, fuel - 1);
        if rest.None? then None
        else Some(Loaded(rest.value.text, rest.value.guard, inc.value.files + rest.value.files))
  }

  // ---------------------------------------------------------------------
  // A file that includes itself through `./`
  // ---------------------------------------------------------------------

  /** Text bytes read as path characters. */
  function Chars(n: Bytes): (s: string)
    ensures |s| == |n|
  {
    seq(|n|, i requires 0 <= i < |n| => (n[i] as int) as char)
  }

  /** `path::parent_path` on a path with a `/`: everything before the last `/`. */
  function Parent(p: Path): Path
  {
    if p == [] then []
    else if p[|p| - 1] == '/' then p[..|p| - 1]
    else Parent(p[..|p| - 1])
  }

  /** What opening does to a path: `.` components are dropped. */
  function RemoveDots(p: Path): Path
    decreases |p|
  {
    if |p| >= 2 && p[0] == '/' && p[1] == '.' && (|p| == 2 || p[2] == '/') then RemoveDots(p[2..])
    else if p == [] then []
    else [p[0]] + RemoveDots(p[1..])
  }

  /** `k` components `/.`. */
  function Dots(k: nat): Path
  {
    if k == 0 then [] else "/." + Dots(k - 1)
  }

  /** The spelling `d/./…/./a` of the file `d/a`, with `k` extra `.` components. */
  function Spelling(k: nat): Path
  {
    "d" + Dots(k) + "/a"
  }

  /** Every path is already absolute; directories and names are joined with `/`. */
  function PosixOps(): PathOps
  {
    PathOps(p => p, Parent, (dir, name) => dir + "/" + Chars(name), p => "")
  }

  /** The same operations with an `absolute` that normalises, as the
      corrected loader needs. */
  function CanonicalOps(): PathOps
  {
    PathOps(RemoveDots, Parent, (dir, name) => dir + "/" + Chars(name), p => "")
  }

  /** `#include<./a>`. */
  const SelfInclude: Bytes := INCLUDE + [LT, 0x2E, 0x2F, 0x61, GT]

  /** The one file `d/a`, which includes itself as `./a`. */
  function SelfFs(): FileSystem
  {
    map["d/a" := SelfInclude]
  }

  lemma {:induction false} DotsLength(k: nat)
    ensures |Dots(k)| == 2 * k
  {
    if k > 0 {
      DotsLength(k - 1);
    }
  }

  lemma {:induction false} DotsShift(k: nat)
    ensures Dots(k) + "/." == "/." + Dots(k)
  {
    if k > 0 {
      DotsShift(k - 1);
      assert Dots(k) + "/." == "/." + (Dots(k - 1) + "/.");
    }
  }

  /** A `/.` followed by another component is dropped. */
  lemma DropDot(p: Path, q: Path)
    requires p == "/." + q && |q| >= 1 && q[0] == '/'
    ensures RemoveDots(p) == RemoveDots(q)
  {
    assert p[2] == q[0];
    assert p[2..] == q;
  }

  /** `k + 1` components `/.` in front of `t` are one `/.` in front of `k` of them. */
  lemma DotsCons(k: nat, t: Path)
    requires |t| >= 1 && t[0] == '/'
    ensures Dots(k + 1) + t == "/." + (Dots(k) + t)
    ensures |Dots(k) + t| >= 1 && (Dots(k) + t)[0] == '/'
  {
    if k > 0 {
      assert Dots(k) + t == "/." + (Dots(k - 1) + t);
    }
  }

  /** `.` components in front of a component that starts with `/` are dropped. */
  lemma {:induction false} DotsRemoved(k: nat, t: Path)
    requires |t| >= 1 && t[0] == '/'
    ensures RemoveDots(Dots(k) + t) == RemoveDots(t)
  {
    if k == 0 {
      assert Dots(0) + t == t;
    } else {
      DotsCons(k - 1, t);
      DropDot(Dots(k) + t, Dots(k - 1) + t);
      DotsRemoved(k - 1, t);
    }
  }

  lemma SlashAKept()
    ensures RemoveDots("/a") == "/a"
  {
    assert "/a"[1..] == "a";
    assert RemoveDots("a") == "a";
  }

  /** Every spelling opens the one file `d/a`. */
  lemma SpellingResolves(k: nat)
    ensures RemoveDots(Spelling(k)) == "d/a"
  {
    var p := Spelling(k);
    assert p == "d" + (Dots(k) + "/a");
    assert p[1..] == Dots(k) + "/a";
    DotsRemoved(k, "/a");
    SlashAKept();
  }

  /** The include `./a` inside spelling `k` names spelling `k + 1`. */
  lemma SpellingIncludes(k: nat)
    ensures PosixOps().join(PosixOps().parent(Spelling(k)), SelfInclude[9 .. 12]) == Spelling(k + 1)
  {
    var dir := "d" + Dots(k);
    assert Spelling(k) == dir + "/a";
    assert Parent(dir + "/a") == Parent(dir + "/");
    assert Parent(Spelling(k)) == dir;
    assert Chars(SelfInclude[9 .. 12]) == "./a";
    DotsShift(k);
    assert dir + "/" + "./a" == "d" + (Dots(k) + "/.") + "/a";
  }

  /** The scan finds the self-include at the start of the file. */
  lemma SelfDirective()
    ensures NextDirective(SelfInclude, 0) == Some(Directive(0, 8, 12))
  {
    assert SelfInclude[0 .. 8] == INCLUDE;
    OccursAtSlice(SelfInclude, INCLUDE, 0);
    FindReturnsFirst(SelfInclude, INCLUDE, 0, 0);
    forall m: nat | 0 <= m < 13
      ensures OccursAt(SelfInclude, [LT], m) <==> m == 8
      ensures OccursAt(SelfInclude, [GT], m) <==> m == 12
    {
      OccursAtByte(SelfInclude, LT, m);
      OccursAtByte(SelfInclude, GT, m);
    }
    FindReturnsFirst(SelfInclude, [LT], 0, 8);
    FindReturnsFirst(SelfInclude, [GT], 8, 12);
  }

  /** Loading spelling `k`, with a guard holding only shorter paths, never
      finishes: the guard never holds the next spelling. */
  lemma {:induction false} SpellingNeverEnds(k: nat, guard: set<Path>, fuel: nat)
    requires forall p :: p in guard ==> |p| < |Spelling(k)|
    ensures LoadFuel(PosixOps(), RemoveDots, SelfFs(), Spelling(k), guard, fuel) == None
    decreases fuel, 0
  {
    if fuel > 0 {
      var abs := Spelling(k);
      assert abs !in guard;
      assert RemoveDots(abs) == "d/a" by {
        SpellingResolves(k);
      }
      assert StripBom(SelfInclude) == SelfInclude;
      SelfScanNeverEnds(k, guard + {abs}, fuel - 1);
    }
  }

  /** The scan of spelling `k` loads spelling `k + 1`, which never finishes. */
  lemma {:induction false} SelfScanNeverEnds(k: nat, guard: set<Path>, fuel: nat)
    requires forall p :: p in guard ==> |p| <= |Spelling(k)|
    ensures ScanFuel(PosixOps(), RemoveDots, SelfFs(), Spelling(k), SelfInclude, 0, guard, fuel) == None
    decreases fuel, 1
  {
    SelfDirective();
    if fuel > 0 {
      assert PosixOps().join(PosixOps().parent(Spelling(k)), SelfInclude[9 .. 12]) == Spelling(k + 1) by {
        SpellingIncludes(k);
      }
      assert |Spelling(k + 1)| == |Spelling(k)| + 2 by {
        DotsLength(k);
        DotsLength(k + 1);
      }
      SpellingNeverEnds(k + 1, guard, fuel);
    }
  }

  /** As written: `d/a` containing `#include<./a>` is never recognised as a
      circular include, whatever the fuel. */
  lemma SelfIncludeNeverEnds(fuel: nat)
    ensures LoadFuel(PosixOps(), RemoveDots, SelfFs(), "d/a", {}, fuel) == None
  {
    assert Spelling(0) == "d/a";
    SpellingNeverEnds(0, {}, fuel);
  }

  /** Corrected: with the guard keyed by the normalised path, the same load
      reads `d/a` once, meets the guard at `d/./a`, and returns empty text. */
  lemma CanonicalKeyStops()
    ensures ReadTextFile(CanonicalOps(), SelfFs(), "d/a", {}) == Loaded([], {"d/a"}, ["d/a"])
  {
    var ops := CanonicalOps();
    var fs := SelfFs();
    var g: set<Path> := {"d/a"};
    SpellingResolves(0);
    SpellingResolves(1);
    assert Spelling(0) == "d/a";
    assert StripBom(SelfInclude) == SelfInclude;
    SelfDirective();
    var inner := ops.join(ops.parent("d/a"), SelfInclude[9 .. 12]);
    assert inner == Spelling(1) by {
      SpellingIncludes(0);
    }
    assert ReadTextFile(ops, fs, inner, g) == Loaded([], g, []);
    assert SelfInclude[..0] + [] + SelfInclude[13..] == [];
    assert NextDirective([], 0).None?;
    ExpandStep(ops, fs, "d/a", SelfInclude, 0, g, Directive(0, 8, 12));
    assert {} + {"d/a"} == g;
  }
}
