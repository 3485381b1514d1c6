# chime.scss build script, modelled in Dafny

The repository builds its stylesheets with one script, `scripts/build.js`. The
script finds every `.scss` file below the `example` directory, adds the
top-level `chime.scss`, and then starts one build job per file, all at once,
without waiting for any of them. Each job compiles its file with node-sass,
runs autoprefixer over the CSS, and writes the result next to the source with
the extension changed to `.css`.

This project models the parts of the script that are its own logic. It
leaves out the compiler, the post-processor and the file I/O:

- `flatten` (module `Flattening`, `flatten.dfy`). A JavaScript array element
  is `Nested<T>`: either a `Leaf` holding a non-array value or an `Arr` of
  further elements. `Flatten` is the `reduce` the script writes: a left fold
  (`Reduce`) over the elements with an accumulator, where an array element
  contributes its own flattening and any other element contributes itself.
- Output-path derivation and `path.join` (module `Paths`, `paths.dfy`).
  `OutPath` is `f.replace(/\.scss$/, ".css")`. `EndsWith` is the `$`-anchored
  match. `Join(base, name)` is `base + "/" + name`.
- Stylesheet discovery (module `Discovery`, `discovery.dfy`). `readdir` and
  `stat` are replaced by an in-memory tree of `Entry` values: `Dir(name,
  children)`, `File(name)` or `Other(name)`. A listing is the sequence of a
  directory's entries in the order `readdir` returns them. `Visit` is the
  callback of `files.map`: a directory becomes the array found below it, a
  regular file whose joined path ends in `.scss` becomes that path, and any
  other entry becomes `undefined` (`Slot.Undefined`). `FindScss` flattens
  these results and keeps the truthy values (`KeepTruthy`, the
  `filter((e) => e)`; both `undefined` and `""` are falsy). Its reference
  definitions are `AllFiles`, the depth-first list of regular files, and
  `FileAt`, which says that a path names a regular file at any depth.
- The job list (module `Build`, `build.dfy`). `Sources` is the
  `files.push("chime.scss")`. `Jobs` pairs each source with its output path,
  in the order `files.forEach` starts them.

Three facts about the code shape what the model proves:

- `Promise.all` resolves to its results in input order, so discovery keeps
  listing order (`FindScssAppend`, `FindScssDir`).
- The code tests the joined path for the extension, not the entry name.
  `Paths.JoinEndsWithScss` proves that the two tests agree for a `/` join.
- No path is returned twice only for trees whose entry names hold no `/` and
  are unique within their directory (`WellFormed`), which is what a real
  directory listing provides (`FindScssDistinct`).

## Model

| member | source | states |
|---|---|---|
| `Flattening.Flatten` | scripts/build.js:100-104 | the flat result has exactly as many elements as the input has leaves at any depth |
| `Flattening.Reduce` | scripts/build.js:101-103 | the fold's result is the accumulator grown by one element per leaf still to visit |
| `Flattening.ReduceAppends` | scripts/build.js:101-103 | the `reduce` only appends: folding from accumulator `p` yields `p` followed by the flattening |
| `Flattening.FlattenEmpty` | scripts/build.js:100-104 | `flatten([])` is `[]` |
| `Flattening.FlattenLeaf` | scripts/build.js:102 | a single non-array value flattens to itself |
| `Flattening.FlattenArr` | scripts/build.js:102 | a single nested array flattens to that array's own flattening |
| `Flattening.FlattenAppend` | scripts/build.js:101-103 | `flatten(a ++ b) == flatten(a) ++ flatten(b)`: leaves come out depth first, left to right |
| `Flattening.FlattenFlat` | scripts/build.js:100-104 | an already flat array is returned unchanged |
| `Flattening.FlattenIdempotent` | scripts/build.js:100-104 | flattening the result again changes nothing |
| `Flattening.FlattenBag` | scripts/build.js:101-103 | every leaf occurs in the result exactly as often as in the input |
| `Flattening.FlattenMembers` | scripts/build.js:100-104 | a value is in the result if and only if it is a leaf of the input at some depth, so no array is ever returned |
| `Paths.Join` | scripts/build.js:79 | the joined path is the base, a separator, then the name |
| `Paths.RenameScss` | scripts/build.js:27 | a path `prefix + ".scss"` becomes `prefix + ".css"`, whatever the prefix holds |
| `Paths.RenameOther` | scripts/build.js:27 | a path not ending in `.scss` is returned unchanged |
| `Paths.RenameChanges` | scripts/build.js:27 | the rename changes a path if and only if the path ends in `.scss` |
| `Paths.RenameTrailingOnly` | scripts/build.js:27 | `a.scss/b.scss` becomes `a.scss/b.css`: only the trailing extension is replaced |
| `Paths.RenameInverse` | scripts/build.js:27 | a `.scss` source's output ends in `.css`, and the source can be recovered from it |
| `Paths.RenameInjective` | scripts/build.js:27 | two different `.scss` sources never get the same output path |
| `Paths.RenameIdempotent` | scripts/build.js:27 | renaming an output again leaves it unchanged |
| `Paths.JoinEndsWithScss` | scripts/build.js:79-83 | the joined path ends in `.scss` if and only if the entry name does |
| `Discovery.FindScssFiltersFiles` | scripts/build.js:75-91 | discovery returns exactly the `.scss` paths among all regular files, in depth-first listing order |
| `Discovery.VisitFiltersFiles` | scripts/build.js:78-85 | after flattening and filtering, one entry's callback contributes exactly the `.scss` regular files in or below it |
| `Discovery.FindScssAppend` | scripts/build.js:78-90 | results follow the listing: two runs of entries give their matches concatenated in order |
| `Discovery.FindScssDir` | scripts/build.js:81-82 | a subdirectory contributes exactly its own matches as one contiguous run, even when its own name ends in `.scss` |
| `Discovery.FindScssFile` | scripts/build.js:83-84 | a regular file contributes its joined path if and only if its name ends in `.scss` |
| `Discovery.FindScssOther` | scripts/build.js:85-90 | an entry that is neither file nor directory becomes a hole and contributes nothing |
| `Discovery.FindScssExact` | scripts/build.js:81-90 | a path is returned if and only if it is a regular file at some depth and ends in `.scss` |
| `Discovery.FindScssShape` | scripts/build.js:79-84 | every returned path lies below the base directory and ends in `.scss` |
| `Discovery.AllFilesMembers` | scripts/build.js:78-82 | the depth-first file listing holds exactly the regular files at any depth |
| `Discovery.FindScssDistinct` | scripts/build.js:78-90 | in a well-formed tree no path is returned twice |
| `Discovery.FindScssExample` | scripts/build.js:75-91 | `a.scss`, `b.txt` and `sub/c.scss` under `example` give exactly `example/a.scss` and `example/sub/c.scss`, in that order |
| `Build.JobsOrder` | scripts/build.js:23-27 | the jobs are the discovered paths in order, then `chime.scss` as the last job with output `chime.css` |
| `Build.JobsOutputs` | scripts/build.js:25-27 | every job reads a `.scss` file and writes the same path with `.css` in its place; the source can be recovered from the output |
| `Build.ExtraNotFound` | scripts/build.js:23-25 | `chime.scss` is never among the paths discovered under `example` |
| `Build.JobsDistinct` | scripts/build.js:23-27 | in a well-formed tree no two jobs share a source or an output path |

## Left out

- Sass compilation through node-sass with the package importer (scripts/build.js:32-39): a foreign library whose output cannot be stated.
- Autoprefixing through postcss and autoprefixer, and the warnings it prints (scripts/build.js:61-67): a foreign library.
- Deleting the old output with rimraf and writing the new file (scripts/build.js:30, 43): file-system I/O. A `Job` records only which file is read and which is written.
- Real `readdir` and `stat` (scripts/build.js:76, 80): replaced by the in-memory `Entry` tree. Their failures, which reject the discovery promise and abort the whole run (scripts/build.js:50-52), are not modelled. Symbolic links that `stat` would follow into a cycle are not modelled either: a tree is always finite.
- Paths.Join: does not model the normalisation `path.join` performs on `.`/`..` segments or repeated separators. These cannot occur with the base `example` and names from a directory listing.
- The fire-and-forget `forEach(async …)` dispatch and the interleaving of the jobs (scripts/build.js:26-48): concurrency with no ordering. The model gives only the order in which the jobs are started.
- Console output and error reporting through `formatted` (scripts/build.js:44-51, 64): diagnostics only.
