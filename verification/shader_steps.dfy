/**
  One-step unfoldings of the loader's scanning loop, used by the proofs
  about it.
*/
module ShaderSteps {
  import opened TextSearch
  import opened ShaderProcessor

  /** Unfolds `ExpandDirective`, for the proofs about the loader. */
  lemma DirectiveUnfold(ops: PathOps, fs: FileSystem, file: Path, code: Bytes, d: Directive, guard: set<Path>)
    requires d.start + |INCLUDE| <= d.open < d.close < |code|
    ensures var inc := ReadTextFile(ops, fs, ops.join(ops.parent(file), code[d.open + 1 .. d.close]), guard);
            var rest := ExpandIncludes(ops, fs, file, code[..d.start] + inc.text + code[d.close + 1..], d.start, inc.guard);
            ExpandDirective(ops, fs, file, code, d, guard) == Loaded(rest.text, rest.guard, inc.files + rest.files)
  {
  }
}
