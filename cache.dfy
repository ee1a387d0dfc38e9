/**
 * The stateful part of `build_rag_tool_from_files`: the process-wide cache from cache key
 * to retrieval index, the loop that prepares the files and the loop that adds the texts.
 */
module RagCache {
  import opened Wrappers
  import opened Paths
  import opened Extractor
  import opened Ingestion

  /**
   * One pass of the loop over `file_paths`: the usable path, the lowered extension test
   * and the source name of one input path.
   */
  method PrepareFile(filePath: string, abspath: string -> string) returns (accepted: bool, usablePath: string, sourceName: string)
    ensures usablePath == UsablePath(filePath, abspath)
    ensures accepted == Accepted(usablePath) && sourceName == Basename(usablePath)
  {
    var absolutePath := abspath(filePath);
    usablePath := SimpleDecodePath(absolutePath);
    var ext := Lower(Extension(usablePath));
    sourceName := Basename(usablePath);
    accepted := ext in [".pdf", ".txt"];
  }

  /** The loop over `file_paths` that fills `prepared_files`. */
  method PrepareFiles(filePaths: seq<string>, abspath: string -> string) returns (prepared: seq<(string, string)>)
    ensures prepared == Prepared(Normalised(filePaths, abspath))
  {
    prepared := [];
    for i := 0 to |filePaths|
      invariant prepared == Prepared(Normalised(filePaths[..i], abspath))
    {
      var accepted, usablePath, sourceName := PrepareFile(filePaths[i], abspath);
      assert Prepared(Normalised(filePaths[..i + 1], abspath))
          == prepared + (if accepted then [(usablePath, sourceName)] else []) by {
        assert filePaths[..i + 1] == filePaths[..i] + [filePaths[i]];
        PreparedSnoc(filePaths[..i], filePaths[i], abspath);
      }
      if accepted {
        prepared := prepared + [(usablePath, sourceName)];
      }
    }
    assert filePaths[..|filePaths|] == filePaths;
  }

  /** The retrieval index (`RagTool`), seen through the texts handed to its `add`. */
  class RagTool {
    var added: seq<string>

    constructor ()
      ensures added == []
    {
      added := [];
    }

    /** `add(text, data_type="text")`. */
    method Add(text: string)
      modifies this
      ensures added == old(added) + [text]
    {
      added := added + [text];
    }
  }

  /** `_rag_tool_cache` with `build_rag_tool_from_files`. */
  class RagToolCache {
    var entries: map<CacheKey, RagTool>

    /** Each index is owned by one key: distinct keys hold distinct index objects. */
    ghost predicate Valid()
      reads this
    {
      forall k1, k2 :: k1 in entries && k2 in entries && k1 != k2 ==> entries[k1] != entries[k2]
    }

    constructor ()
      ensures Valid() && entries == map[]
    {
      entries := map[];
    }

    /**
     * `build_rag_tool_from_files(file_paths)`. On a key hit the stored index is returned and
     * nothing is built or added. On a miss a fresh index receives the build's texts and is
     * stored under the key, unless an extraction raises, in which case nothing is stored.
     */
    method BuildRagToolFromFiles(filePaths: seq<string>, env: Env) returns (r: Result<RagTool, Failure>)
      requires Valid()
      modifies this
      ensures Valid()
      ensures var key := KeyOf(filePaths, env.abspath, env.mtime);
              if key in old(entries) then
                r == Success(old(entries)[key]) && entries == old(entries)
              else
                match BuildTexts(filePaths, env)
                case Failure(e) => r == Failure(e) && entries == old(entries)
                case Success(texts) =>
                  r.Success? && fresh(r.value) && r.value.added == texts
                  && entries == old(entries)[key := r.value]
    {
      var key := KeyOf(filePaths, env.abspath, env.mtime);
      if key in entries {
        return Success(entries[key]);
      }
      var ragTool := new RagTool();
      var prepared := PrepareFiles(filePaths, env.abspath);
      var results := MapExtract(prepared, env.disk);
      if results.Failure? {
        return Failure(results.error);
      }
      var rs := results.value;
      for i := 0 to |rs|
        invariant ragTool.added == AddedTexts(rs[..i])
        invariant entries == old(entries)
      {
        AddedTextsPrefix(rs, i);
        if rs[i].Some? {
          var (fileText, sourceName) := rs[i].value;
          ragTool.Add(fileText);
        }
      }
      assert rs[..|rs|] == rs;
      assert forall k :: k in entries ==> entries[k] != ragTool;
      entries := entries[key := ragTool];
      r := Success(ragTool);
    }
  }

  /**
   * Two calls in a row with unchanged files give the same answer: the same index object, or
   * the same exception raised again. The index of a first build holds that build's texts.
   */
  method BuildTwice(cache: RagToolCache, filePaths: seq<string>, env: Env) returns (first: Result<RagTool, Failure>, second: Result<RagTool, Failure>)
    requires cache.Valid()
    modifies cache
    ensures second == first
    ensures KeyOf(filePaths, env.abspath, env.mtime) !in old(cache.entries) ==>
              (first.Success? <==> BuildTexts(filePaths, env).Success?)
    ensures KeyOf(filePaths, env.abspath, env.mtime) !in old(cache.entries) && first.Success? ==>
              BuildTexts(filePaths, env).Success? && second.Success?
              && second.value.added == BuildTexts(filePaths, env).value
  {
    first := cache.BuildRagToolFromFiles(filePaths, env);
    second := cache.BuildRagToolFromFiles(filePaths, env);
  }

  /**
   * A file modified between two builds changes the key. So when the cache does not already
   * hold the new key (it might, if the mtime was set back to an earlier value), the second
   * build misses: it yields a new index holding the texts read from the files as they are now.
   */
  method RebuildAfterModification(cache: RagToolCache, filePaths: seq<string>, before: Env, after: Env, p: string)
      returns (first: Result<RagTool, Failure>, second: Result<RagTool, Failure>)
    requires cache.Valid()
    requires p in filePaths && p in before.mtime
    requires after.abspath == before.abspath
    requires p in after.mtime && after.mtime == before.mtime[p := after.mtime[p]]
    requires after.mtime[p] != before.mtime[p]
    requires KeyOf(filePaths, after.abspath, after.mtime) !in cache.entries
    modifies cache
    ensures cache.Valid()
    ensures first.Success? && second.Success? ==> second.value != first.value
    ensures second.Success? <==> BuildTexts(filePaths, after).Success?
    ensures second.Success? ==> second.value.added == BuildTexts(filePaths, after).value
  {
    first := cache.BuildRagToolFromFiles(filePaths, before);
    KeyDetectsNewMtime(filePaths, before.abspath, before.mtime, p, after.mtime[p]);
    second := cache.BuildRagToolFromFiles(filePaths, after);
  }
}
