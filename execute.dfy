/**
 * The page bookkeeping of the documentation build plugin. The read hook
 * executes a page's notebook and remembers, under the page's absolute source
 * path, the names of the output files the execution wrote; the markdown hook
 * takes that entry out again and registers one already-saved file per name
 * with the host's file collection.
 */
module Execute {
  import opened Wrappers

  /** The three settings of the host configuration the plugin reads. */
  datatype Config = Config(siteDir: string, docsDir: string, useDirectoryUrls: bool)

  /** A page as the hooks see it: only `page.file.abs_src_path` keys the bookkeeping. */
  datatype Page = Page(absSrcPath: string)

  /**
   * A file registered with the host: an already-saved file, which the host
   * does not copy because the notebook execution wrote it into the site.
   */
  datatype File = AlreadySavedFile(path: string, srcDir: string, destDir: string, useDirectoryUrls: bool)

  /** `output_map.pop(path)` raises KeyError: the read hook never ran for the page. */
  datatype PluginError = NoOutputsRecorded(path: string)

  /** The files the markdown hook registers for a list of output names, one per name, in order. */
  function Registered(names: seq<string>, config: Config): (r: seq<File>)
    ensures |r| == |names|
    ensures forall k :: 0 <= k < |r| ==>
              r[k] == AlreadySavedFile(names[k], config.docsDir, config.siteDir, config.useDirectoryUrls)
  {
    if names == [] then []
    else [AlreadySavedFile(names[0], config.docsDir, config.siteDir, config.useDirectoryUrls)]
         + Registered(names[1..], config)
  }

  /** Registering two lists one after the other registers their concatenation. */
  lemma RegisteredAppend(a: seq<string>, b: seq<string>, config: Config)
    ensures Registered(a + b, config) == Registered(a, config) + Registered(b, config)
  {
    var l, r := Registered(a + b, config), Registered(a, config) + Registered(b, config);
    assert |l| == |r|;
    forall k | 0 <= k < |l| ensures l[k] == r[k] {
      if k < |a| {
        assert (a + b)[k] == a[k];
      } else {
        assert (a + b)[k] == b[k - |a|];
      }
    }
  }

  lemma RegisteredStep(names: seq<string>, k: nat, config: Config)
    requires k < |names|
    ensures Registered(names[..k + 1], config)
            == Registered(names[..k], config)
               + [AlreadySavedFile(names[k], config.docsDir, config.siteDir, config.useDirectoryUrls)]
  {
    assert names[..k + 1] == names[..k] + [names[k]];
    RegisteredAppend(names[..k], [names[k]], config);
  }

  /** The host's file collection, which the markdown hook extends in place. */
  class Files {
    var entries: seq<File>

    constructor (entries: seq<File>)
      ensures this.entries == entries
    {
      this.entries := entries;
    }

    method Append(file: File)
      modifies this
      ensures entries == old(entries) + [file]
    {
      entries := entries + [file];
    }
  }

  class Plugin {
    /** Output-file names per absolute page source path, from the read hook until the markdown hook. */
    var outputMap: map<string, seq<string>>

    constructor ()
      ensures outputMap == map[]
    {
      outputMap := map[];
    }

    /**
     * The read hook. `outputs` are the keys of the execution's output
     * resources, in order, and `rendered` the markdown the export wrote;
     * the hook hands that markdown to the host.
     */
    method OnPageReadSource(page: Page, config: Config, outputs: seq<string>, rendered: string)
      returns (source: string)
      modifies this
      ensures source == rendered
      ensures page.absSrcPath in outputMap && outputMap[page.absSrcPath] == outputs
      ensures outputMap.Keys == old(outputMap).Keys + {page.absSrcPath}
      ensures forall p :: p in old(outputMap) && p != page.absSrcPath ==> outputMap[p] == old(outputMap)[p]
    {
      var srcPath := page.absSrcPath;
      outputMap := outputMap[srcPath := outputs];
      source := rendered;
    }

    /**
     * The markdown hook. It fails before changing anything when no entry
     * was recorded for the page; otherwise it removes the entry and appends
     * the registered files. It returns None: the host keeps the markdown.
     */
    method OnPageMarkdown(markdown: string, page: Page, config: Config, files: Files)
      returns (r: Result<Option<string>, PluginError>)
      modifies this, files
      ensures r.Success? <==> page.absSrcPath in old(outputMap)
      ensures r.Failure? ==>
                && r.error == NoOutputsRecorded(page.absSrcPath)
                && outputMap == old(outputMap)
                && files.entries == old(files.entries)
      ensures r.Success? ==>
                && r.value == None
                && outputMap == old(outputMap) - {page.absSrcPath}
                && files.entries == old(files.entries) + Registered(old(outputMap)[page.absSrcPath], config)
    {
      var srcPath := page.absSrcPath;
      if srcPath !in outputMap {
        return Failure(NoOutputsRecorded(srcPath));
      }
      var names := outputMap[srcPath];
      outputMap := outputMap - {srcPath};
      ghost var before := files.entries;
      for k := 0 to |names|
        invariant outputMap == old(outputMap) - {srcPath}
        invariant files.entries == before + Registered(names[..k], config)
      {
        var file := AlreadySavedFile(names[k], config.docsDir, config.siteDir, config.useDirectoryUrls);
        files.Append(file);
        RegisteredStep(names, k, config);
      }
      assert names[..|names|] == names;
      r := Success(None);
    }
  }

  /**
   * One page through both hooks in the host's order: the entry the read hook
   * adds is gone again afterwards, so the map does not grow from page to page,
   * and the files are extended by exactly the page's outputs.
   */
  method ProcessPage(plugin: Plugin, files: Files, page: Page, config: Config,
                     outputs: seq<string>, rendered: string)
    returns (markdown: string)
    modifies plugin, files
    ensures markdown == rendered
    ensures plugin.outputMap == old(plugin.outputMap) - {page.absSrcPath}
    ensures files.entries == old(files.entries) + Registered(outputs, config)
  {
    markdown := plugin.OnPageReadSource(page, config, outputs, rendered);
    var r := plugin.OnPageMarkdown(markdown, page, config, files);
    assert plugin.outputMap == old(plugin.outputMap)[page.absSrcPath := outputs] - {page.absSrcPath};
  }
}
