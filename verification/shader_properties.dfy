/**
  Properties of the shader text loader and of the extension-to-stage table.
*/
module ShaderProperties {
  import opened TextSearch
  import opened ShaderProcessor
  import opened ShaderSteps

  /** No path appears twice in `s`. */
  ghost predicate Distinct(s: seq<Path>)
  {
    forall a, b :: 0 <= a < b < |s| ==> s[a] != s[b]
  }

  function Elems(s: seq<Path>): set<Path>
  {
    set p | p in s
  }

  /** The files read during a call whose guard was `before` on entry are
      exactly the existing files that joined the guard, each read once. */
  ghost predicate ReadOnce(fs: FileSystem, before: set<Path>, r: Loaded)
  {
    Distinct(r.files) && Elems(r.files) == (r.guard - before) * fs.Keys
  }

  // ---------------------------------------------------------------------
  // Include guard
  // ---------------------------------------------------------------------

  /** A file whose absolute path is already guarded yields empty text and
      leaves the guard as it was. */
  lemma GuardedFileIsEmpty(ops: PathOps, fs: FileSystem, file: Path, guard: set<Path>)
    requires ops.absolute(file) in guard
    ensures ReadTextFile(ops, fs, file, guard) == Loaded([], guard, [])
  {
  }

  /** A file that cannot be opened yields empty text, but its absolute path
      has been added to the guard all the same. */
  lemma MissingFileIsEmpty(ops: PathOps, fs: FileSystem, file: Path, guard: set<Path>)
    requires ops.absolute(file) !in guard && ops.absolute(file) !in fs
    ensures ReadTextFile(ops, fs, file, guard) == Loaded([], guard + {ops.absolute(file)}, [])
  {
  }

  /** The guard is shared by the whole load: once a file has been loaded,
      loading it again through any path with the same absolute path, with
      the guard the first load left behind, yields empty text.  This is
      what happens to the second include of a diamond and to the include
      that closes a cycle. */
  lemma SecondLoadIsEmpty(ops: PathOps, fs: FileSystem, file: Path, other: Path, guard: set<Path>)
    requires ops.absolute(other) == ops.absolute(file)
    ensures var r := ReadTextFile(ops, fs, file, guard);
            ReadTextFile(ops, fs, other, r.guard) == Loaded([], r.guard, [])
  {
  }

  /** A top-level load starts from an empty guard and reads every file at
      most once: the files read are exactly the existing files in the final
      guard, the requested one among them when it exists. */
  lemma ShaderLoadReadsEachFileOnce(ops: PathOps, fs: FileSystem, file: Path)
    ensures var r := ReadTextFile(ops, fs, file, {});
            && r.text == ReadShaderFile(ops, fs, file)
            && Distinct(r.files)
            && Elems(r.files) == r.guard * fs.Keys
            && (ops.absolute(file) in fs <==> ops.absolute(file) in Elems(r.files))
  {
    ReadTextFileReadsOnce(ops, fs, file, {});
  }

  /** Within any call, the files read are exactly the existing files that
      joined the guard during the call, and none is read twice. */
  lemma {:induction false} ReadTextFileReadsOnce(ops: PathOps, fs: FileSystem, file: Path, guard: set<Path>)
    ensures ReadOnce(fs, guard, ReadTextFile(ops, fs, file, guard))
    decreases fs.Keys - guard, 0, 0
  {
    var abs := ops.absolute(file);
    if abs !in guard && abs in fs {
      var code := StripBom(fs[abs]);
      ExpandReadsOnce(ops, fs, file, code, 0, guard + {abs});
      OpenedFirst(fs, guard, abs, ExpandIncludes(ops, fs, file, code, 0, guard + {abs}));
    }
  }

  lemma {:induction false} ExpandReadsOnce(ops: PathOps, fs: FileSystem, file: Path, code: Bytes, pos: nat,
                                           guard: set<Path>)
    requires pos <= |code|
    ensures ReadOnce(fs, guard, ExpandIncludes(ops, fs, file, code, pos, guard))
    decreases fs.Keys - guard, 1, |code|
  {
    match NextDirective(code, pos)
    case None =>
    case Some(d) =>
      var path := ops.join(ops.parent(file), code[d.open + 1 .. d.close]);
      ReadTextFileReadsOnce(ops, fs, path, guard);
      var inc := ReadTextFile(ops, fs, path, guard);
      var spliced := code[..d.start] + inc.text + code[d.close + 1..];
      ExpandStep(ops, fs, file, code, pos, guard, d);
      ExpandReadsOnce(ops, fs, file, spliced, d.start, inc.guard);
      ReadInSequence(fs, guard, inc, ExpandIncludes(ops, fs, file, spliced, d.start, inc.guard));
  }

  // ---------------------------------------------------------------------
  // Byte-order mark
  // ---------------------------------------------------------------------

  /** Prepending a byte-order mark and stripping it gives the text back,
      whatever the text is; in particular only one mark is removed. */
  lemma StripBomAfterPrepend(body: Bytes)
    ensures StripBom(BOM + body) == body
  {
  }

  /** Text that does not begin with a byte-order mark is kept whole. */
  lemma StripBomKeeps(code: Bytes)
    requires !StartsWithBom(code)
    ensures StripBom(code) == code
  {
  }

  /** Unfolds one round of the scanning loop, for the inductive proofs below. */
  lemma ExpandStep(ops: PathOps, fs: FileSystem, file: Path, code: Bytes, pos: nat, guard: set<Path>, d: Directive)
    requires pos <= |code|
    requires NextDirective(code, pos) == Some(d)
    ensures var inc := ReadTextFile(ops, fs, ops.join(ops.parent(file), code[d.open + 1 .. d.close]), guard);
            var rest := ExpandIncludes(ops, fs, file, code[..d.start] + inc.text + code[d.close + 1..], d.start, inc.guard);
            ExpandIncludes(ops, fs, file, code, pos, guard) == Loaded(rest.text, rest.guard, inc.files + rest.files)
  {
    assert ExpandIncludes(ops, fs, file, code, pos, guard) == ExpandDirective(ops, fs, file, code, d, guard);
    DirectiveUnfold(ops, fs, file, code, d, guard);
  }

  /** Two file systems that differ only at guarded paths load alike. */
  ghost predicate AgreeOutside(fs1: FileSystem, fs2: FileSystem, guard: set<Path>)
  {
    && fs1.Keys == fs2.Keys
    && forall p :: p in fs1 && p !in guard ==> fs1[p] == fs2[p]
  }

  lemma AgreeOutsideGrows(fs1: FileSystem, fs2: FileSystem, guard: set<Path>, bigger: set<Path>)
    requires AgreeOutside(fs1, fs2, guard) && guard <= bigger
    ensures AgreeOutside(fs1, fs2, bigger)
  {
  }

  lemma {:induction false} ReadFrame(ops: PathOps, fs1: FileSystem, fs2: FileSystem, file: Path, guard: set<Path>)
    requires AgreeOutside(fs1, fs2, guard)
    ensures ReadTextFile(ops, fs1, file, guard) == ReadTextFile(ops, fs2, file, guard)
    decreases fs1.Keys - guard, 0, 0
  {
    var abs := ops.absolute(file);
    if abs !in guard && abs in fs1 {
      ExpandFrame(ops, fs1, fs2, file, StripBom(fs1[abs]), 0, guard + {abs});
    }
  }

  lemma {:induction false} ExpandFrame(ops: PathOps, fs1: FileSystem, fs2: FileSystem, file: Path,
                                       code: Bytes, pos: nat, guard: set<Path>)
    requires pos <= |code|
    requires AgreeOutside(fs1, fs2, guard)
    ensures ExpandIncludes(ops, fs1, file, code, pos, guard) == ExpandIncludes(ops, fs2, file, code, pos, guard)
    decreases fs1.Keys - guard, 1, |code|
  {
    match NextDirective(code, pos)
    case None =>
    case Some(d) =>
      var path := ops.join(ops.parent(file), code[d.open + 1 .. d.close]);
      ReadFrame(ops, fs1, fs2, path, guard);
      var inc := ReadTextFile(ops, fs1, path, guard);
      var spliced := code[..d.start] + inc.text + code[d.close + 1..];
      AgreeOutsideGrows(fs1, fs2, guard, inc.guard);
      ExpandStep(ops, fs1, file, code, pos, guard, d);
      ExpandStep(ops, fs2, file, code, pos, guard, d);
      ExpandFrame(ops, fs1, fs2, file, spliced, d.start, inc.guard);
  }

  /** A file saved with a UTF-8 byte-order mark loads to the same text as
      the same file saved without one. */
  lemma BomDoesNotMatter(ops: PathOps, fs: FileSystem, file: Path, body: Bytes)
    requires !StartsWithBom(body)
    ensures var abs := ops.absolute(file);
            ReadShaderFile(ops, fs[abs := BOM + body], file) == ReadShaderFile(ops, fs[abs := body], file)
  {
    var abs := ops.absolute(file);
    var fs1 := fs[abs := BOM + body];
    var fs2 := fs[abs := body];
    StripBomAfterPrepend(body);
    StripBomKeeps(body);
    assert AgreeOutside(fs1, fs2, {abs});
    assert StripBom(fs1[abs]) == body && StripBom(fs2[abs]) == body;
    assert {} + {abs} == {abs};
    ExpandFrame(ops, fs1, fs2, file, body, 0, {abs});
    assert ReadTextFile(ops, fs1, file, {}).text == ExpandIncludes(ops, fs1, file, body, 0, {abs}).text;
    assert ReadTextFile(ops, fs2, file, {}).text == ExpandIncludes(ops, fs2, file, body, 0, {abs}).text;
  }

  // ---------------------------------------------------------------------
  // Include expansion
  // ---------------------------------------------------------------------

  /** Text without any `"#include"` is returned as it is after the
      byte-order mark is stripped. */
  lemma NoIncludeKeepsText(ops: PathOps, fs: FileSystem, file: Path, guard: set<Path>)
    requires ops.absolute(file) !in guard && ops.absolute(file) in fs
    requires AbsentFrom(StripBom(fs[ops.absolute(file)]), INCLUDE, 0)
    ensures ReadTextFile(ops, fs, file, guard).text == StripBom(fs[ops.absolute(file)])
  {
    var abs := ops.absolute(file);
    var code := StripBom(fs[abs]);
    assert Find(code, INCLUDE, 0).None?;
    assert NextDirective(code, 0).None?;
    assert ExpandIncludes(ops, fs, file, code, 0, guard + {abs}).text == code;
  }

  /** The directive the scan acts on is made of first occurrences: the first
      `"#include"` at or after `pos`, the first `'<'` after it, the first
      `'>'` after that. */
  lemma NextDirectiveIsFirst(code: Bytes, pos: nat)
    requires NextDirective(code, pos).Some?
    ensures var d := NextDirective(code, pos).value;
            && IsFirstFrom(code, INCLUDE, pos, d.start)
            && IsFirstFrom(code, [LT], d.start, d.open)
            && IsFirstFrom(code, [GT], d.open, d.close)
  {
    var d := NextDirective(code, pos).value;
    FindIsFirst(code, INCLUDE, pos);
    FindIsFirst(code, [LT], d.start);
    FindIsFirst(code, [GT], d.open);
  }

  /** When the scan finds no directive, it is for one of three reasons: no
      `"#include"` follows, the first one has no `'<'` after it, or that
      `'<'` has no `'>'` after it. */
  lemma NoDirectiveReasons(code: Bytes, pos: nat)
    requires NextDirective(code, pos).None?
    ensures || AbsentFrom(code, INCLUDE, pos)
            || (exists p: nat :: IsFirstFrom(code, INCLUDE, pos, p) && AbsentFrom(code, [LT], p))
            || (exists p: nat, s: nat :: IsFirstFrom(code, INCLUDE, pos, p) && IsFirstFrom(code, [LT], p, s)
                                         && AbsentFrom(code, [GT], s))
  {
    FindIsFirst(code, INCLUDE, pos);
    match Find(code, INCLUDE, pos)
    case None =>
    case Some(p) =>
      FindIsFirst(code, [LT], p);
      match Find(code, [LT], p)
      case None =>
      case Some(s) =>
        FindIsFirst(code, [GT], s);
  }

  /** A `"#include"` with no `'<'` anywhere after it ends the scan: the rest
      of the text is kept verbatim and nothing more is loaded. */
  lemma MissingOpenBracketStops(ops: PathOps, fs: FileSystem, file: Path, code: Bytes, pos: nat,
                                guard: set<Path>, p: nat)
    requires pos <= |code|
    requires IsFirstFrom(code, INCLUDE, pos, p) && AbsentFrom(code, [LT], p)
    ensures ExpandIncludes(ops, fs, file, code, pos, guard) == Loaded(code, guard, [])
  {
    match NextDirective(code, pos)
    case None =>
    case Some(d) =>
      NextDirectiveIsFirst(code, pos);
      FirstUnique(code, INCLUDE, pos, p, d.start);
      assert false;
  }

  /** A `"#include"` whose first following `'<'` has no `'>'` after it ends
      the scan in the same way. */
  lemma MissingCloseBracketStops(ops: PathOps, fs: FileSystem, file: Path, code: Bytes, pos: nat,
                                 guard: set<Path>, p: nat, s: nat)
    requires pos <= |code|
    requires IsFirstFrom(code, INCLUDE, pos, p) && IsFirstFrom(code, [LT], p, s)
    requires AbsentFrom(code, [GT], s)
    ensures ExpandIncludes(ops, fs, file, code, pos, guard) == Loaded(code, guard, [])
  {
    match NextDirective(code, pos)
    case None =>
    case Some(d) =>
      NextDirectiveIsFirst(code, pos);
      FirstUnique(code, INCLUDE, pos, p, d.start);
      FirstUnique(code, [LT], p, s, d.open);
      assert false;
  }

  /** The scan never changes the text before the position it starts from. */
  lemma {:induction false} ExpandKeepsPrefix(ops: PathOps, fs: FileSystem, file: Path, code: Bytes, pos: nat,
                                             guard: set<Path>)
    requires pos <= |code|
    ensures var r := ExpandIncludes(ops, fs, file, code, pos, guard);
            pos <= |r.text| && r.text[..pos] == code[..pos]
    decreases fs.Keys - guard, |code|
  {
    match NextDirective(code, pos)
    case None =>
    case Some(d) =>
      var path := ops.join(ops.parent(file), code[d.open + 1 .. d.close]);
      var inc := ReadTextFile(ops, fs, path, guard);
      var tail := code[d.close + 1..];
      var spliced := code[..d.start] + inc.text + tail;
      SplicePrefix(code, d.start, inc.text, tail);
      ExpandStep(ops, fs, file, code, pos, guard, d);
      ExpandKeepsPrefix(ops, fs, file, spliced, d.start, inc.guard);
      SharedPrefix(ExpandIncludes(ops, fs, file, spliced, d.start, inc.guard).text, code, pos, d.start);
  }

  /** The directive found is replaced by the expanded text of
      `parent(file) / name`, loaded with the current guard; the text before
      the directive is untouched and the scan resumes where the directive
      began.  When no further directive follows there, this is the result. */
  lemma DirectiveReplaced(ops: PathOps, fs: FileSystem, file: Path, code: Bytes, pos: nat,
                          guard: set<Path>, d: Directive)
    requires pos <= |code|
    requires NextDirective(code, pos) == Some(d)
    ensures var inc := ReadTextFile(ops, fs, ops.join(ops.parent(file), code[d.open + 1 .. d.close]), guard);
            var spliced := code[..d.start] + inc.text + code[d.close + 1..];
            && pos <= d.start <= |spliced|
            && d.start <= |ExpandIncludes(ops, fs, file, code, pos, guard).text|
            && ExpandIncludes(ops, fs, file, code, pos, guard).text[..d.start] == code[..d.start]
            && (NextDirective(spliced, d.start).None? ==>
                  ExpandIncludes(ops, fs, file, code, pos, guard) == Loaded(spliced, inc.guard, inc.files))
  {
    var inc := ReadTextFile(ops, fs, ops.join(ops.parent(file), code[d.open + 1 .. d.close]), guard);
    var spliced := code[..d.start] + inc.text + code[d.close + 1..];
    var r := ExpandIncludes(ops, fs, file, code, pos, guard);
    var rest := ExpandIncludes(ops, fs, file, spliced, d.start, inc.guard);
    ExpandStep(ops, fs, file, code, pos, guard, d);
    SplicePrefix(code, d.start, inc.text, code[d.close + 1..]);
    ExpandKeepsPrefix(ops, fs, file, spliced, d.start, inc.guard);
    if NextDirective(spliced, d.start).None? {
      assert rest.files == [];
      assert inc.files + [] == inc.files;
    }
  }

  // ---------------------------------------------------------------------
  // Shader stages
  // ---------------------------------------------------------------------

  /** Each stage's extension maps back to that stage, and the six
      extensions are exactly the known ones. */
  lemma StageRoundTrip(stage: ShaderStage)
    ensures StageFromExtension(StageExtension(stage)) == stage
    ensures StageExtension(stage) in KnownExtensions
  {
  }

  /** Different stages have different extensions. */
  lemma StageExtensionInjective(s1: ShaderStage, s2: ShaderStage)
    requires StageExtension(s1) == StageExtension(s2)
    ensures s1 == s2
  {
    StageRoundTrip(s1);
    StageRoundTrip(s2);
  }

  // ---------------------------------------------------------------------
  // Helpers
  // ---------------------------------------------------------------------

  /** Splicing text in at `start` keeps everything before `start`. */
  lemma SplicePrefix(code: Bytes, start: nat, mid: Bytes, tail: Bytes)
    requires start <= |code|
    ensures (code[..start] + mid + tail)[..start] == code[..start]
  {
  }

  /** Two sequences that agree up to `start` agree up to any `pos <= start`. */
  lemma SharedPrefix(a: Bytes, b: Bytes, pos: nat, start: nat)
    requires pos <= start <= |a| && start <= |b| && a[..start] == b[..start]
    ensures a[..pos] == b[..pos]
  {
    assert a[..pos] == a[..start][..pos];
    assert b[..pos] == b[..start][..pos];
  }

  /** Reading `abs` and then the files of its expansion reads each file once. */
  lemma OpenedFirst(fs: FileSystem, guard: set<Path>, abs: Path, r: Loaded)
    requires abs !in guard && abs in fs
    requires guard + {abs} <= r.guard
    requires ReadOnce(fs, guard + {abs}, r)
    ensures ReadOnce(fs, guard, Loaded(r.text, r.guard, [abs] + r.files))
  {
    DistinctCons(abs, r.files);
    assert Elems([abs] + r.files) == (r.guard - guard) * fs.Keys;
  }

  /** Two loads one after the other, the second starting from the guard the
      first left, read each file once between them. */
  lemma ReadInSequence(fs: FileSystem, guard: set<Path>, first: Loaded, second: Loaded)
    requires guard <= first.guard <= second.guard
    requires ReadOnce(fs, guard, first) && ReadOnce(fs, first.guard, second)
    ensures ReadOnce(fs, guard, Loaded(second.text, second.guard, first.files + second.files))
  {
    DistinctAppend(first.files, second.files);
    assert Elems(first.files + second.files) == (second.guard - guard) * fs.Keys;
  }

  lemma DistinctCons(p: Path, s: seq<Path>)
    requires Distinct(s) && p !in Elems(s)
    ensures Distinct([p] + s)
    ensures Elems([p] + s) == {p} + Elems(s)
  {
    var t := [p] + s;
    forall a, b | 0 <= a < b < |t|
      ensures t[a] != t[b]
    {
      if a == 0 {
        assert t[b] == s[b - 1];
        assert s[b - 1] in Elems(s);
      } else {
        assert t[a] == s[a - 1] && t[b] == s[b - 1];
      }
    }
  }

  lemma DistinctAppend(s: seq<Path>, t: seq<Path>)
    requires Distinct(s) && Distinct(t) && Elems(s) !! Elems(t)
    ensures Distinct(s + t)
    ensures Elems(s + t) == Elems(s) + Elems(t)
  {
    var u := s + t;
    forall a, b | 0 <= a < b < |u|
      ensures u[a] != u[b]
    {
      if b < |s| {
        assert u[a] == s[a] && u[b] == s[b];
      } else if a < |s| {
        assert u[a] in Elems(s) && u[b] in Elems(t);
      } else {
        assert u[a] == t[a - |s|] && u[b] == t[b - |s|];
      }
    }
  }
}
