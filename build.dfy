/**
 * The job list of the build's main process: the stylesheets discovered
 * under `example`, with the top-level `chime.scss` pushed at the end, each
 * paired with the output path its compiled CSS is written to.
 */
module Build {
  import opened Paths
  import opened Discovery

  /** Directory that discovery starts from. */
  const Root: string := "example"

  /** The top-level stylesheet processed in addition to the discovered ones. */
  const Extra: string := "chime.scss"

  /** One stylesheet to build: where it is read from and where its CSS goes. */
  datatype Job = Job(source: string, output: string)

  /** `files.push("chime.scss")` on the discovered paths. */
  function Sources(found: seq<string>): seq<string> {
    found + [Extra]
  }

  /**
   * The jobs `files.forEach` starts, in order, for a tree whose root listing
   * is `listing`; each output path is `f.replace(/\.scss$/, ".css")`.
   */
  function Jobs(listing: seq<Entry>): seq<Job> {
    var sources := Sources(FindScss(Root, listing));
    seq(|sources|, i requires 0 <= i < |sources| => Job(sources[i], OutPath(sources[i])))
  }

  /**
   * The jobs are the discovered stylesheets, in discovery order, followed by
   * `chime.scss` as the last one, whose output is `chime.css`.
   */
  lemma JobsOrder(listing: seq<Entry>)
    ensures var found := FindScss(Root, listing);
      && |Jobs(listing)| == |found| + 1
      && (forall i :: 0 <= i < |found| ==> Jobs(listing)[i].source == found[i])
      && Jobs(listing)[|found|] == Job("chime.scss", "chime.css")
  {
  }

  /**
   * Every job reads a `.scss` file and writes the same path with the
   * extension replaced by `.css`; the source can be recovered from the output.
   */
  lemma JobsOutputs(listing: seq<Entry>, i: nat)
    requires i < |Jobs(listing)|
    ensures var job := Jobs(listing)[i];
      && EndsWith(job.source, ScssExt)
      && EndsWith(job.output, CssExt)
      && job.output == job.source[..|job.source| - |ScssExt|] + CssExt
      && SourceOf(job.output) == job.source
  {
    var found := FindScss(Root, listing);
    var source := Sources(found)[i];
    if i < |found| {
      assert source in found;
      FindScssExact(Root, listing, source);
    } else {
      assert source == "chime" + ScssExt;
    }
    RenameInverse(source);
  }

  /** `chime.scss` is not below `example`, so discovery never lists it. */
  lemma ExtraNotFound(listing: seq<Entry>)
    ensures Extra !in FindScss(Root, listing)
  {
    assert !StartsWith(Extra, Root + [Sep]) by {
      assert Extra[0] != (Root + [Sep])[0];
    }
    if Extra in FindScss(Root, listing) {
      FindScssShape(Root, listing, Extra);
    }
  }

  /**
   * In a well-formed tree no two jobs read the same file and no two jobs
   * write the same file, so the concurrent jobs never race on an output.
   */
  lemma JobsDistinct(listing: seq<Entry>)
    requires WellFormed(listing)
    ensures forall i, j :: 0 <= i < j < |Jobs(listing)| ==> Jobs(listing)[i].source != Jobs(listing)[j].source
    ensures forall i, j :: 0 <= i < j < |Jobs(listing)| ==> Jobs(listing)[i].output != Jobs(listing)[j].output
  {
    var found := FindScss(Root, listing);
    var jobs := Jobs(listing);
    FindScssDistinct(Root, listing);
    ExtraNotFound(listing);
    forall i, j | 0 <= i < j < |jobs| ensures jobs[i].source != jobs[j].source {
      if j == |found| {
        assert jobs[i].source == found[i] && found[i] in found;
      }
    }
    forall i, j | 0 <= i < j < |jobs| ensures jobs[i].output != jobs[j].output {
      JobsOutputs(listing, i);
      JobsOutputs(listing, j);
      RenameInjective(jobs[i].source, jobs[j].source);
    }
  }
}
