# Locus bookkeeping of phyluce's `seqcap_align_2.py`

This project models the orchestration core of `seqcap_align_2.py`, the
parallel aligner for UCE FASTA files. It covers how records are grouped into
loci and how undercovered loci are dropped. It covers how one alignment job is
built per surviving locus, and how results are matched back to loci and
written as one output file each. The core is modelled in Dafny and its
properties are proved.

Modules, in data-flow order:

- `Text` (text.dfy): Python's `str.split` and `str.join` for a one-character
  separator, with split/join round-trip lemmas.
- `LocusKeys` (locus_keys.dfy): locus-key extraction in the standard and the
  `--faircloth` naming schemes. An identifier without `|` gives `None`, which
  is where the source raises IndexError.
- `Partition` (partition.dfy): the `defaultdict(list)` as a class
  `LocusDict` that is updated in place. `build_locus_dict` is a method that takes it.
  `PartitionOf` is the dictionary after the read loop. `Group` is an
  independent reference definition, and `PartitionGroups` proves the two agree.
- `Coverage` (coverage.dfy): the snapshot-and-delete filter, both as intended
  and as written (see Findings).
- `FastaDict` (fasta_dict.dfy): `get_fasta_dict`, meaning the read loop
  followed by the filter.
- `Jobs` (jobs.dfy): `loci.items()`, the `opts`/`zip` step, `align`'s choice of
  trim method, and sequential versus pooled `map`.
- `Output` (output.dfy): `write_alignments_to_outdir`, the extension table
  and POSIX `os.path.join`.
- `Pipeline` (pipeline.dfy): `main`, stated end to end. A file
  `<outdir>/<locus>.nex` exists exactly for the loci that survive the filter
  and that the aligner trims.

The aligner back-end is a function parameter `trimmer`. It takes a locus's
records and a trim method, and returns a trimmed alignment or `None`.
Serialising an alignment (`aln.trimmed.format(format)`) is a function
parameter `render`. The output directory is modelled as the map from path to
contents of the files written; the source empties the directory beforehand.

A locus key can contain `/`, for example when an identifier is `x|/a|...`,
`s|./a` or `s|a/b`. `os.path.join` then ignores the output directory, or two
keys name one file on disk (`out/./a.nex` and `out/a.nex`), or the file sits
in a sub-directory that does not exist. For that reason the per-file contents
guarantee of `Pipeline.Run` and `Output.WrittenContent` is stated for keys
without `/`. Such a key names a plain file directly inside the output
directory, and `Output.OutNameInjective` shows that two such keys never share
a path.

Two points of the code decide how coverage works. First, the taxon count is
`len(data)`, the number of records in a locus's list, so duplicate records
count (lines 188 and 192). Second, the filter deletes from the live dictionary
while it iterates over a `copy.deepcopy` snapshot (lines 184-193).

## Model

| member | source | states |
|---|---|---|
| `Text.Split` | bin/align/seqcap_align_2.py:178 | `split` yields at least one field, and no field contains the separator |
| `Text.JoinSplit` | bin/align/seqcap_align_2.py:178-181 | joining the fields of a split gives back the original string |
| `Text.SplitJoin` | bin/align/seqcap_align_2.py:180-181 | splitting a join of separator-free fields gives back those fields |
| `Text.SplitFieldCount` | bin/align/seqcap_align_2.py:178 | the number of fields is the number of separators plus one |
| `LocusKeys.LocusKey` | bin/align/seqcap_align_2.py:177-181 | a key exists (no IndexError) if and only if the identifier contains a `|` |
| `LocusKeys.StandardKey` | bin/align/seqcap_align_2.py:177-178 | the standard key of `sample\|locus[\|...]` is exactly `locus`, the text between the first and second `\|` |
| `LocusKeys.FairclothKey` | bin/align/seqcap_align_2.py:179-181 | the faircloth key of `sample\|prefix[_...][\|...]` is `sample_prefix`, where `prefix` is the second field up to its first `_` |
| `Partition.AddRecord` | bin/align/seqcap_align_2.py:120-128 | a refused record (an `N` in its sequence while ambiguous bases are refused) leaves the map unchanged and creates no key; otherwise the record is appended to the end of its own locus's list, creating the list on first use, and every other list is unchanged |
| `Partition.LocusDict.Append` | bin/align/seqcap_align_2.py:123 | `loci[locus].append(record)` on a default dictionary |
| `Partition.LocusDict.Delete` | bin/align/seqcap_align_2.py:189 | `del loci[locus]` removes exactly that key |
| `Partition.BuildLocusDict` | bin/align/seqcap_align_2.py:120-128 | updates the dictionary in place as `AddRecord` describes, and returns the same dictionary object |
| `Partition.PartitionOf` | bin/align/seqcap_align_2.py:176-182 | the dictionary after the read loop; no list in it is empty, because a key is only created by an append. `Partition.PartitionGroups` states which records each list holds |
| `Partition.GroupSnoc` | bin/align/seqcap_align_2.py:176-182 | reading the input record by record appends each admitted record at the end of its group |
| `Partition.PartitionGroups` | bin/align/seqcap_align_2.py:175-182 | after the read loop a locus is present if and only if some admitted record has its key, and its list holds exactly those records in input order, duplicates kept |
| `Partition.GroupMembers` | bin/align/seqcap_align_2.py:121-127 | a record is in a locus's group if and only if it is an input record, it is admitted, and it carries that key |
| `Partition.RecordPresence` | bin/align/seqcap_align_2.py:121-127 | an admitted record is in its own locus's list, and a record skipped for an ambiguous base is in no list at all |
| `Coverage.DropUndercovered` | bin/align/seqcap_align_2.py:183-195 | a locus stays if and only if it was present and has at least 3 records (incomplete matrix) or at least `species` records (strict); kept lists are unchanged |
| `Coverage.DropUndercoveredAsWritten` | bin/align/seqcap_align_2.py:186-194 | the code as written raises if and only if the mode is strict and some locus has fewer than `species` records; when it does not raise, the filter is the intended one |
| `Coverage.StrictDropRaises` | bin/align/seqcap_align_2.py:192-194 | with loci A (5 records) and B (2 records), 4 species and strict mode, the intended filter keeps A only, but the code as written raises |
| `FastaDict.GetFastaDict` | bin/align/seqcap_align_2.py:169-195 | with the coverage filter as intended (see Findings), fails if and only if some identifier has no `\|`, reporting the first such record; otherwise it returns the partition restricted to the loci that pass the coverage policy, with their lists unchanged |
| `Jobs.Items` | bin/align/seqcap_align_2.py:241 | `loci.items()` lists every entry exactly once, each key with its own list |
| `Jobs.Zip` | bin/align/seqcap_align_2.py:241 | `zip` pairs entries with option lists position by position, up to the shorter length |
| `Jobs.BuildParams` | bin/align/seqcap_align_2.py:239-241 | one job per locus entry, in entry order, each carrying the same `[window, threshold, notrim, proportion, max_divergence]` options |
| `Jobs.TrimMethodFor` | bin/align/seqcap_align_2.py:149-160 | `notrim` selects the `'notrim'` method; otherwise `'running'` is selected with the window, proportion, threshold and divergence from the options |
| `Jobs.Align` | bin/align/seqcap_align_2.py:141-166 | `align` returns the locus name it was given, with the aligner's outcome for that locus's records under the trim method chosen by `Jobs.TrimMethodFor` |
| `Jobs.PoolMap` | bin/align/seqcap_align_2.py:246 | `pool.map` gives one result per job, and result i is named after job i's locus |
| `Jobs.MapSequential` | bin/align/seqcap_align_2.py:248 | the sequential `map` yields exactly what the order-preserving `pool.map` yields |
| `Jobs.Dispatch` | bin/align/seqcap_align_2.py:243-248 | for any core count, result i is named after job i's locus and carries the aligner's outcome for job i's records and trim method |
| `Output.PathJoin` | bin/align/seqcap_align_2.py:222 | POSIX `os.path.join`: an absolute name replaces the directory; otherwise the path is the directory, then a `/` exactly when the directory is non-empty and does not already end in `/`, then the name |
| `Output.OutName` | bin/align/seqcap_align_2.py:210-222 | the output path is `os.path.join(outdir, locus)` followed by the extension from the `formats` table (`.nex` for the default `nexus`) |
| `Output.Written` | bin/align/seqcap_align_2.py:219-227 | the files after the write loop, with a later write replacing an earlier one, so there are never more files than results. `Output.WrittenComplete`, `Output.WrittenSound` and `Output.WrittenContent` state which paths and contents they hold |
| `Output.OutNameInjective` | bin/align/seqcap_align_2.py:222 | two locus keys without `/` that have the same output path are the same key |
| `Output.WriteAlignments` | bin/align/seqcap_align_2.py:209-227 | the files written are those of the results handled in order, with a later write to a path replacing an earlier one; the loci with no trimmed alignment are logged as dropped, in order |
| `Output.DroppedMembers` | bin/align/seqcap_align_2.py:221-227 | a locus is logged as dropped if and only if some result for it has no trimmed alignment |
| `Output.WrittenComplete` | bin/align/seqcap_align_2.py:219-225 | every result with a trimmed alignment has the file `join(outdir, locus) + extension` written |
| `Output.WrittenSound` | bin/align/seqcap_align_2.py:219-227 | every written path is `join(outdir, locus) + extension` for a result with a trimmed alignment, so a result with no trimmed alignment writes nothing |
| `Output.WrittenContent` | bin/align/seqcap_align_2.py:219-225 | when no locus contains `/` and no other result shares its locus, a trimmed result's file holds exactly that result's rendering |
| `Pipeline.FilesFromLoci` | bin/align/seqcap_align_2.py:239-251 | the files written for the dispatched results are exactly `<outdir>/<locus>.nex` for the loci the aligner trims |
| `Pipeline.ContentsFromLoci` | bin/align/seqcap_align_2.py:239-251 | with distinct keys without `/`, each trimmed locus's file holds its own rendered alignment |
| `Pipeline.AlignAndWrite` | bin/align/seqcap_align_2.py:238-251 | after one job per locus and dispatch, a `.nex` file exists exactly for the loci the aligner trims; with keys without `/` each file holds that locus's rendered alignment |
| `Pipeline.Run` | bin/align/seqcap_align_2.py:230-253 | with the coverage filter as intended (see Findings), `cores` within `cpu_count()` and every `open()` at line 223 succeeding (a key containing `/` can make it raise IOError), `main` fails if and only if an identifier has no `\|`. Otherwise a `.nex` file exists exactly for the loci that survive filtering and that the aligner trims, and with keys without `/` each file holds that locus's alignment. With `notrim` and an aligner whose `'notrim'` method always succeeds, every surviving locus gets a file |

## Left out

- Argument parsing (`get_args`), logging setup and the text of log and print messages are left out, because they are configuration and I/O. The skip and drop decisions they report are modelled.
- FASTA reading and writing and the temporary file of `create_locus_specific_fasta` are left out, because they are foreign-library file I/O. Records are given as a sequence of `(identifier, sequence)` pairs, and the aligner receives a locus's records directly.
- The `Align` back-ends (mafft, muscle, dialign), `run_alignment` and the trimming internals are external code. They are represented by the `trimmer` parameter. The import-time choice of back-end (lines 258-264) is represented by the caller binding `trimmer` once.
- Writing an alignment in a format (`aln.trimmed.format`) is the `render` parameter.
- `multiprocessing.Pool` and the `cores <= cpu_count()` assertion (lines 243-246) are concurrency and are left out. `pool.map` is modelled by its order-preserving result.
- `create_output_dir` is left out, because it is an interactive prompt plus directory removal and creation. The model assumes the directory starts empty.
- The progress characters `.` and `X` (lines 161-165) are stdout output and are left out.
- The `proportion`, `threshold` and `max_divergence` floats are only passed through, so they are modelled as `real`.
- Python 2 dictionary order is unspecified. `Jobs.Items` and the filter's scan choose an arbitrary order. Every property is proved for all orders.
- Output.WriteAlignments: files are compared as path strings, with no normalisation of `.` or `//` and no case folding, and `open()` is assumed to succeed. A key containing `/` can therefore name the same file as another key, or a file in a missing sub-directory, where Python raises IOError part-way through the loop. The per-file contents guarantee is stated only for keys without `/`.
- Pipeline.Run: the result assumes the coverage filter as intended. The code as written raises ValueError in strict mode whenever a locus falls short (see Findings). It also assumes `cores` does not exceed `cpu_count()`, since the assertion at line 244 is not modelled, and that every `open()` at line 223 succeeds: a key containing `/` (such as `a/b` from `s|a/b`) names a file in a sub-directory that `create_output_dir` never creates, so Python raises IOError there while `Run` reports success.
- The output format is a datatype of the six table entries, so the KeyError for an unknown format name is not modelled. `main` always passes `'nexus'`.

## Findings

| source | as written | input that shows it | evidently intended | confidence | as-written member | corrected member |
|---|---|---|---|---|---|---|
| bin/align/seqcap_align_2.py:194 | The strict-mode warning mixes `{0}` and `{}` in one format string, so `str.format` raises ValueError. This happens just after `del loci[locus]`, so `get_fasta_dict` aborts at the first locus that falls short. | loci A with 5 records and B with 2 records, `species` 4, strict mode | B is dropped with a warning and A proceeds to alignment | high; not executed | `Coverage.DropUndercoveredAsWritten` (with `Coverage.StrictDropRaises`) | `Coverage.DropUndercovered` |
