# UV-sphere grid and shader loader — a Dafny model

This project models two small pieces of the LVK sphere demo and proves properties of them:

- **`generateUVSphere`** builds the latitude/longitude sphere mesh.
  - Its vertex list is a row-major grid of `stacks + 1` rows with `sectors + 1` vertices each.
  - Its index list holds two triangles per grid cell, with a fixed winding.
  - A vertex is represented by the grid coordinates `(stack, sector)` its position is computed from.
  - The index arithmetic is C++ `unsigned int` arithmetic, written out as reduction modulo 2^32 (`SphereData.Wrap`).
- **`readTextFile` / `readShaderFile`** load shader source with the `#include <name>` directives expanded recursively.
  - The file system is a finite map from absolute paths to byte strings.
  - `fs::absolute`, `parent_path`, `operator/` and `extension` are uninterpreted functions (fields of `PathOps`), so every property holds for any interpretation of them.
  - The include guard is a set of absolute paths. It is threaded through the whole load and returned with the text.
  - Each result also records the files actually read, in order (`Loaded.files`). This trace is model-only bookkeeping used to state "each file is read at most once".
  - Termination is proved with the lexicographic measure (existing files not yet guarded, 1, length of the text being scanned).
- **`shaderStageFromPath`** maps a file extension to a shader stage.

Modules:

- `SphereData` (`sphere_data.dfy`): the mesh generator and its layout and bounds lemmas.
- `TextSearch` (`text_search.dfy`): bytes and `std::string::find`.
- `ShaderProcessor` (`shader_processor.dfy`): the loader and the stage table.
- `ShaderSteps` (`shader_steps.dfy`): a one-round unfolding of the scanning loop, used by the proofs.
- `ShaderProperties` (`shader_properties.dfy`): the loader's properties.
- `ShaderExamples` (`shader_examples.dfy`): a worked load of two files that include each other.
- `ShaderAliasing` (`shader_aliasing.dfy`): the loader with its guard keyed as the code keys it, and a file that includes itself through `./` (see "## Findings").

Two behaviours of the code that the properties make explicit:

- One guard is shared by the whole load (include/shader_processor.h:12, 62-63). The second include of a file in a diamond therefore contributes empty text, just like an include that closes a cycle (`ShaderProperties.SecondLoadIsEmpty`).
- An unknown extension yields the vertex stage (include/shader_processor.h:77-78), see `ShaderProcessor.StageFromExtension`.

## Model

| member | source | states |
|---|---|---|
| SphereData.GenerateUVSphere | include/sphere_data.h:13-69 | The output is exactly the vertex grid and the cell index list for `(stacks, sectors)`, whatever the output vectors held before (both are cleared first). Loop invariants state the rows and stacks pushed so far. |
| SphereData.PushVertexGrid | include/sphere_data.h:21-50 | The outer vertex loop leaves exactly the row-major grid: `stacks+1` rows of `sectors+1` vertices, stack by stack. |
| SphereData.PushVertexRow | include/sphere_data.h:29-49 | The inner vertex loop appends the `sectors+1` vertices of one stack, in sector order, to the vertices already present. |
| SphereData.PushStackIndices | include/sphere_data.h:57-67 | The inner loop appends to the indices already present exactly the six indices of every cell of one stack, in sector order. |
| SphereData.RowStartProduct | include/sphere_data.h:54-55 | The offset of stack `i` built up row by row equals the `unsigned int` product `i * (sectors + 1)` that the code computes. |
| SphereData.GridLayout | include/sphere_data.h:21-50 | There are `(stacks+1)*(sectors+1)` vertices, and vertex `k` comes from stack `k / (sectors+1)` and sector `k % (sectors+1)`. |
| SphereData.GridAt | include/sphere_data.h:21-50 | Vertex `i*(sectors+1)+j` is the one computed for stack `i` and sector `j`, for every `i <= stacks` and `j <= sectors`. |
| SphereData.RowIndicesLayout | include/sphere_data.h:57-67 | One stack contributes `6*sectors` indices, and entry `6*j+t` is entry `t` of cell `j`. |
| SphereData.GridIndicesLength | include/sphere_data.h:53-68 | After `n` stacks there are `6*n*sectors` indices. |
| SphereData.IndexCount | include/sphere_data.h:53-68 | The index count is `6*stacks*sectors`, so it is a multiple of 3. It is zero exactly when `stacks == 0` or `sectors == 0`. |
| SphereData.GridIndicesPrefix | include/sphere_data.h:53-68 | The indices of the first `m` stacks are a prefix of those of the first `n >= m` stacks, so later stacks never rewrite earlier output. |
| SphereData.CellLayout | include/sphere_data.h:53-68 | Cell `(i, j)` occupies offsets `6*(i*sectors+j)` to `6*(i*sectors+j)+5` of the index list. |
| SphereData.RowStartExact | include/sphere_data.h:54-55 | When the vertex count fits in 32 bits, `row1` and `row2` do not wrap: stack `i` starts at exactly `i*(sectors+1)`, and its row lies inside the grid. |
| SphereData.CellExact | include/sphere_data.h:54-66 | When the vertex count fits in 32 bits, cell `(i, j)` is exactly `(row1+j, row2+j, row1+j+1)` then `(row1+j+1, row2+j, row2+j+1)`, with `row1 = i*(sectors+1)` and `row2 = (i+1)*(sectors+1)`. Every entry is below the vertex count. |
| SphereData.IndicesInBounds | include/sphere_data.h:53-68 | When the vertex count fits in 32 bits, every emitted index names an existing vertex. |
| SphereData.CellTriangles | include/sphere_data.h:59-66 | Each triangle of a cell has three distinct corners. The two triangles share exactly the edge `{row2+j, row1+j+1}`. |
| TextSearch.OccursAtSlice | include/shader_processor.h:42 | The byte-by-byte match used by `find` holds exactly when the needle fits and the text's slice at `k` equals the needle. |
| TextSearch.Find | include/shader_processor.h:42-45 | A position returned by `find` is at or after the start position, and the needle occurs there. |
| TextSearch.FindIsFirst | include/shader_processor.h:42-45 | `find` returns the first occurrence at or after the start position. It returns `npos` exactly when no occurrence follows. |
| TextSearch.FindReturnsFirst | include/shader_processor.h:42-45 | Conversely, whenever `k` is the first occurrence at or after the start position, `find` returns `k`. |
| ShaderProcessor.StripBom | include/shader_processor.h:31-38 | Either the text is kept whole, or exactly the three leading bytes `EF BB BF` are removed. The text gets shorter exactly when it begins with them. |
| ShaderProcessor.NextDirective | include/shader_processor.h:42-48 | A directive the scan acts on lies at or after the scan position. Its `'<'` follows the whole `"#include"`, its `'>'` follows the `'<'`, and both lie inside the text. |
| ShaderProcessor.ReadTextFile | include/shader_processor.h:10-58 | The guard only grows, and the file's absolute path is in it afterwards. Non-empty text implies the path was unguarded and the file exists. |
| ShaderProcessor.ExpandIncludes | include/shader_processor.h:40-57 | The scanning loop only adds paths to the guard. |
| ShaderProcessor.ExpandDirective | include/shader_processor.h:50-54 | One round of the loop, which loads the include and splices it in, only adds paths to the guard. |
| ShaderProcessor.ReadShaderFile | include/shader_processor.h:60-64 | A file that cannot be opened loads as empty text. |
| ShaderProcessor.StageFromExtension | include/shader_processor.h:68-78 | Each of the six known extensions selects the stage it names. Every other extension selects the vertex stage. |
| ShaderProcessor.ShaderStageFromPath | include/shader_processor.h:66-79 | The same mapping, applied to the extension of the path. |
| ShaderProperties.GuardedFileIsEmpty | include/shader_processor.h:12-16 | A file whose absolute path is already guarded yields empty text, reads nothing, and leaves the guard unchanged. |
| ShaderProperties.MissingFileIsEmpty | include/shader_processor.h:12-23 | A file that cannot be opened yields empty text, but its absolute path has been added to the guard. |
| ShaderProperties.SecondLoadIsEmpty | include/shader_processor.h:12-16 | After any load, loading any path with the same absolute path using the guard it left yields empty text and changes nothing. This covers cycles and repeated includes. |
| ShaderProperties.ShaderLoadReadsEachFileOnce | include/shader_processor.h:60-64 | A top-level load reads no file twice. The files it reads are exactly the existing files in its final guard, and the requested file is among them exactly when it exists. |
| ShaderProperties.ReadTextFileReadsOnce | include/shader_processor.h:10-58 | Within any call, the files read are exactly the existing files that joined the guard during the call, each read once. |
| ShaderProperties.ExpandReadsOnce | include/shader_processor.h:40-55 | The same holds for the scanning loop from any position. |
| ShaderProperties.StripBomAfterPrepend | include/shader_processor.h:31-38 | Stripping a prepended mark gives the text back, even when the text itself begins with a mark, so only one mark is removed. |
| ShaderProperties.StripBomKeeps | include/shader_processor.h:31-38 | Text that does not begin with the mark is kept whole. |
| ShaderProperties.ReadFrame | include/shader_processor.h:10-58 | A load depends only on the contents of files not yet guarded when it starts. |
| ShaderProperties.ExpandFrame | include/shader_processor.h:40-55 | The same holds for the scanning loop. |
| ShaderProperties.BomDoesNotMatter | include/shader_processor.h:31-38 | A shader saved with a byte-order mark loads to the same text as the same shader saved without one. |
| ShaderProperties.NoIncludeKeepsText | include/shader_processor.h:41-57 | Text containing no `"#include"` is returned exactly as it is after BOM removal. |
| ShaderProperties.NextDirectiveIsFirst | include/shader_processor.h:42-45 | The directive acted on is built from first occurrences: the first `"#include"` at or after the scan position, the first `'<'` after it, and the first `'>'` after that. |
| ShaderProperties.NoDirectiveReasons | include/shader_processor.h:42-48 | The scan stops only in one of three cases: no `"#include"` follows; no `'<'` follows the first one; or no `'>'` follows that `'<'`. |
| ShaderProperties.MissingOpenBracketStops | include/shader_processor.h:44-48 | A `"#include"` with no `'<'` after it ends the scan. The text is returned verbatim and nothing more is loaded. |
| ShaderProperties.MissingCloseBracketStops | include/shader_processor.h:44-48 | A `"#include"` whose `'<'` has no `'>'` after it ends the scan in the same way. |
| ShaderProperties.ExpandKeepsPrefix | include/shader_processor.h:41-55 | The scan never changes the text before the position it starts from. |
| ShaderProperties.DirectiveReplaced | include/shader_processor.h:44-54 | The text before a directive is untouched. The directive is replaced by the expanded text of `parent(file) / name`, loaded with the current guard. When nothing further follows, that splice is the result. |
| ShaderExamples.CycleLoads | include/shader_processor.h:10-64 | A worked load. File `a` is `x#include<b>` and file `b` is `y#include<a>`. Loading `a` reads `a` and then `b` once each, ends with both in the guard, and yields `xy`: the include that closes the cycle contributes nothing. |
| ShaderProperties.StageRoundTrip | include/shader_processor.h:68-78 | Each stage's extension is a known extension and maps back to that stage. |
| ShaderProperties.StageExtensionInjective | include/shader_processor.h:70-75 | Different stages are named by different extensions. |
| ShaderAliasing.LoadFuel | include/shader_processor.h:10-58 | The load as written, with its guard keyed by `absolute(file)` and the file opened at the path the system resolves. Whenever it finishes within its fuel, the guard has only grown and holds `absolute(file)`. |
| ShaderAliasing.ScanFuel | include/shader_processor.h:41-55 | Its scanning loop only adds paths to the guard. |
| ShaderAliasing.DirectiveFuel | include/shader_processor.h:50-54 | So does one round of that loop. |
| ShaderAliasing.SelfIncludeNeverEnds | include/shader_processor.h:10-58 | As written, `d/a` containing `#include<./a>` never finishes, whatever the fuel. Each round includes `d/./a`, `d/././a`, and so on. None of these is in the guard, yet each opens `d/a` again. |
| ShaderAliasing.CanonicalKeyStops | include/shader_processor.h:12-16 | With the guard keyed by the normalised path, the same load reads `d/a` once and stops at the self-include as a circular include. |

## Left out

- Vertex positions: the `float` trigonometry, `PI` and `radius` (include/sphere_data.h:15, 23-39) are floating-point numerics. A vertex is identified by the grid coordinates they are computed from. The `0/0` division when `stacks` or `sectors` is zero is not represented.
- SphereData.GenerateUVSphere requires `stacks` and `sectors` below `2^32 - 1`. At the largest `unsigned int` the loops `i <= stacks` and `j <= sectors` never end.
- SphereData.IndicesInBounds, SphereData.CellExact, SphereData.CellTriangles and SphereData.RowStartExact assume the vertex count fits in 32 bits. Otherwise lines 54-55 wrap, and the general index layout is stated with explicit wrap-around instead.
- Real `std::filesystem` semantics are uninterpreted functions. Opening `file` succeeds exactly when `absolute(file)` is a key of the map, so `absolute` is taken to be canonical.
- Stream reading (include/shader_processor.h:25-29) and the `LLOGW` warnings carry no information the model needs, so they are left out.
- `loadShaderModule` is a wrapper over a shader-module constructor whose code is not part of this model.
- `lvk::ShaderStage` is reduced to the six stages the table can return.
- The application's window, device and render loop (src/main.cpp) are glue code outside this model.
- Icosphere generation has no source in this repository to model.
- ShaderProcessor.ReadTextFile: termination and reading each file once are proved for a guard keyed by the path that identifies the file. The code keys the guard by `fs::absolute(file)` (include/shader_processor.h:12), which does not normalise. Through `.` or `..` spellings or symbolic links it can load the same file again and again (include/shader_processor.h:50-52); see "## Findings".
- ShaderAliasing.LoadFuel: the system's limit on path length is not modelled. In the real program it eventually makes the open fail and ends the recursion, after about two thousand levels for `./`. Symbolic links and `..` are not modelled either; `resolve` stands for all of them.
- ShaderProcessor.ReadShaderFile: its contract states only the missing-file case. Its other properties are stated about `ReadTextFile` with an empty guard in `ShaderProperties`.

## Findings

| source | as written | input that shows it | evidently intended | confidence | as-written member | corrected member |
|---|---|---|---|---|---|---|
| include/shader_processor.h:12 | The guard key is `fs::absolute(file)`, which on POSIX systems is `current_path() / file` with no removal of `.` or `..`. The file is opened through the system, which resolves them. Two spellings of one file pass the guard separately. | `d/a` containing `#include <./a>`: the includes name `d/./a`, `d/././a`, and so on, and each opens `d/a` again | An include of a file that is already being loaded is reported as circular and loads nothing, so each file is read once | not executed; high | ShaderAliasing.SelfIncludeNeverEnds | ShaderAliasing.CanonicalKeyStops |
