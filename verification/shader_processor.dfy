/**
  The shader text loader (`readTextFile`, `readShaderFile`) and the
  extension-to-stage table (`shaderStageFromPath`).

  The file system is a finite map from absolute paths to file contents:
  opening `file` succeeds exactly when `absolute(file)` is a key.  The path
  operations of `std::filesystem` are left uninterpreted: they are fields of
  a `PathOps` value, so every property below holds whatever they compute.
*/
module ShaderProcessor {
  import opened TextSearch

  type Path = string

  /** `fs::absolute`, `path::parent_path`, `operator/` (applied to the text
      between the angle brackets) and `path::extension`. */
  datatype PathOps = PathOps(
    absolute: Path -> Path,
    parent: Path -> Path,
    join: (Path, Bytes) -> Path,
    extension: Path -> string)

  /** The files that can be opened, by absolute path, with their raw bytes. */
  type FileSystem = map<Path, Bytes>

  /** The UTF-8 byte-order mark. */
  const BOM: Bytes := [0xEF, 0xBB, 0xBF]

  /** The bytes of `"#include"`. */
  const INCLUDE: Bytes := [0x23, 0x69, 0x6E, 0x63, 0x6C, 0x75, 0x64, 0x65]

  const LT: byte := 0x3C  // '<'
  const GT: byte := 0x3E  // '>'

  predicate StartsWithBom(code: Bytes)
  {
    |code| >= 3 && code[..3] == BOM
  }

  /** Drops the three bytes `EF BB BF` when the text begins with them; keeps
      every other byte. */
  function StripBom(code: Bytes): (r: Bytes)
    ensures code == r || code == BOM + r
    ensures |r| < |code| <==> StartsWithBom(code)
  {
    if |code| >= 3 && code[0] == 0xEF && code[1] == 0xBB && code[2] == 0xBF then
      assert code == code[..3] + code[3..];
      code[3..]
    else
      code
  }

  /** An include directive: `"#include"` at `start`, the first `'<'` after
      it at `open`, the first `'>'` after that at `close`.  The name is the
      text strictly between the brackets. */
  datatype Directive = Directive(start: nat, open: nat, close: nat)

  /** The directive the loader acts on when it scans from `pos`: the first
      `"#include"` at or after `pos`, the first `'<'` after it and the first
      `'>'` after that (`NextDirectiveIsFirst`).  A `"#include"` may appear
      anywhere, and the `'<'` need not be on the same line.  `None` when any
      of the three searches fails. */
  function NextDirective(code: Bytes, pos: nat): (r: Option<Directive>)
    ensures r.Some? ==>
      && pos <= r.value.start
      && r.value.start + |INCLUDE| <= r.value.open < r.value.close < |code|
      && code[r.value.open] == LT && code[r.value.close] == GT
  {
    match Find(code, INCLUDE, pos)
    case None => None
    case Some(p) =>
      match Find(code, [LT], p)
      case None => None
      case Some(s) =>
        match Find(code, [GT], s)
        case None => None
        case Some(e) =>
          IncludeHasNoBracket(code, p, s);
          OccursAtByte(code, LT, s);
          OccursAtByte(code, GT, e);
          Some(Directive(p, s, e))
  }

  /** No `'<'` lies inside an occurrence of `"#include"`. */
  lemma IncludeHasNoBracket(code: Bytes, p: nat, s: nat)
    requires OccursAt(code, INCLUDE, p) && OccursAt(code, [LT], s) && p <= s
    ensures p + |INCLUDE| <= s
  {
    OccursAtByte(code, LT, s);
    assert forall k :: p <= k < p + |INCLUDE| ==> code[k] == INCLUDE[k - p];
  }

  /** What a load returns: the text, the include guard as it stands after
      the call, and (model-only bookkeeping) the absolute paths of the files
      actually read, in the order they were read. */
  datatype Loaded = Loaded(text: Bytes, guard: set<Path>, files: seq<Path>)

  /** `readTextFile(file, includeGuard)`.  The absolute path goes into the
      guard before the open is attempted; a path already there, or a file
      that cannot be opened, yields empty text.  Otherwise the BOM is
      stripped and the include directives are expanded with the same,
      growing, guard.  The load terminates because every call either
      guards an existing file that was not guarded before, or returns
      empty text so that the directive it replaces makes the text shorter. */
  function ReadTextFile(ops: PathOps, fs: FileSystem, file: Path, guard: set<Path>): (r: Loaded)
    ensures guard <= r.guard
    ensures ops.absolute(file) in r.guard
    ensures r.text != [] ==> ops.absolute(file) !in guard && ops.absolute(file) in fs
    decreases fs.Keys - guard, 0, 0, 0
  {
    var abs := ops.absolute(file);
    if abs in guard then
      Loaded([], guard, [])
    else if abs !in fs then
      Loaded([], guard + {abs}, [])
    else
      var r := ExpandIncludes(ops, fs, file, StripBom(fs[abs]), 0, guard + {abs});
      Loaded(r.text, r.guard, [abs] + r.files)
  }

  /** The scanning loop of `readTextFile`, from position `pos` of `code`:
      find the next directive and expand it.  The loop ends when no complete
      directive follows. */
  function ExpandIncludes(ops: PathOps, fs: FileSystem, file: Path, code: Bytes, pos: nat, guard: set<Path>)
    : (r: Loaded)
    requires pos <= |code|
    ensures guard <= r.guard
    decreases fs.Keys - guard, 1, |code|, 1
  {
    match NextDirective(code, pos)
    case None => Loaded(code, guard, [])
    case Some(d) => ExpandDirective(ops, fs, file, code, d, guard)
  }

  /** One round of the scanning loop, for the directive `d`: load
      `parent(file) / name` with the current guard, replace the span from
      `"#include"` to `'>'` by the loaded text, and scan again from where
      the directive began, with the guard the load left, so the inserted
      text is scanned too. */
  function ExpandDirective(ops: PathOps, fs: FileSystem, file: Path, code: Bytes, d: Directive, guard: set<Path>)
    : (r: Loaded)
    requires d.start + |INCLUDE| <= d.open < d.close < |code|
    ensures guard <= r.guard
    decreases fs.Keys - guard, 1, |code|, 0
  {
    var inc := ReadTextFile(ops, fs, ops.join(ops.parent(file), code[d.open + 1 .. d.close]), guard);
    var rest := ExpandIncludes(ops, fs, file, code[..d.start] + inc.text + code[d.close + 1..], d.start, inc.guard);
    Loaded(rest.text, rest.guard, inc.files + rest.files)
  }

  /** `readShaderFile`: a load with a fresh, empty guard. */
  function ReadShaderFile(ops: PathOps, fs: FileSystem, file: Path): (r: Bytes)
    ensures ops.absolute(file) !in fs ==> r == []
  {
    ReadTextFile(ops, fs, file, {}).text
  }

  // ---------------------------------------------------------------------
  // Shader stages
  // ---------------------------------------------------------------------

  /** The stages `shaderStageFromPath` can return. */
  datatype ShaderStage = Vert | Tesc | Tese | Geom | Comp | Frag

  /** The file extension that names each stage. */
  function StageExtension(stage: ShaderStage): string
  {
    match stage
    case Vert => ".vert"
    case Frag => ".frag"
    case Geom => ".geom"
    case Comp => ".comp"
    case Tesc => ".tesc"
    case Tese => ".tese"
  }

  const KnownExtensions: set<string> := {".vert", ".frag", ".geom", ".comp", ".tesc", ".tese"}

  /** The comparison chain of `shaderStageFromPath` on the extension: a known
      extension selects its stage, anything else falls back to the vertex
      stage. */
  function StageFromExtension(ext: string): (s: ShaderStage)
    ensures ext in KnownExtensions ==> StageExtension(s) == ext
    ensures ext !in KnownExtensions ==> s == Vert
  {
    if ext == ".vert" then Vert
    else if ext == ".frag" then Frag
    else if ext == ".geom" then Geom
    else if ext == ".comp" then Comp
    else if ext == ".tesc" then Tesc
    else if ext == ".tese" then Tese
    else Vert
  }

  /** `shaderStageFromPath`. */
  function ShaderStageFromPath(ops: PathOps, file: Path): (s: ShaderStage)
    ensures ops.extension(file) in KnownExtensions ==> StageExtension(s) == ops.extension(file)
    ensures ops.extension(file) !in KnownExtensions ==> s == Vert
  {
    StageFromExtension(ops.extension(file))
  }
}
