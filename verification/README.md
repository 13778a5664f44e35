# magento-config-exporter — a Dafny model of its filter step

`magento-config-exporter` exports a chosen part of a Magento store's
configuration to a YAML file. It runs `bin/magento config:show` once for a
scope (optionally narrowed by a scope code). It reads every printed
`<path> - <value>` line and keeps the paths that start with one of the
prefixes listed in a paths file. It puts them under one top-level label and,
after an optional `y/N` confirmation, writes them to
`<scope>[-<code>].yaml`.

This project models that core as pure functions and proves what it
guarantees:

- `Text` — the Python string operations the script relies on: `strip()`
  (with the exact set of characters CPython counts as whitespace),
  `startswith()`, `in`/`split(" - ", 1)` (first occurrence), and `lower()`
  (ASCII only).
- `ConfigFilter` — the line parser, the inner loop over prefixes, the fold
  over all parsed dump lines (`Fold`, and `Collect` over raw lines), and the
  nested loops as the script writes them (`FilterLines` and `StoreMatching`,
  proved equal to `Collect` and `StoreForPaths`). Lemmas characterise the
  result map exactly: which keys it holds, which value wins, and what does
  not matter (prefix order and duplicates, lines without a separator).
- `Exporter` — scope names, the document label, the output file name (with a
  parser proving the name determines the scope and code), the dump command's
  argument vector (with a reader proving it determines the binary, scope and
  code), the confirmation predicate, and one whole run `Run` with
  its two ways to stop (no paths, answer declined).
- `Wrappers` — `Option` and `Result`.

Prefix matching is a plain string-prefix test. It is not aware of path
segments, so the prefix `web/seo` also keeps `web/seox/flag`.
`CollectKeys` states this exactly through `Text.StartsWith`.

The dump is the list of lines `run_command` returns: the command's output
after one `strip()` of the whole text and `splitlines()` (line 59). So the
first line never starts with whitespace and the last never ends with it.
The filter loop does not trim or drop individual lines, so a line in the
middle such as `" - x"` still yields the empty key. The results about `Run`
hold for every dump function, and so for that one.

## Model

| member | source | states |
|---|---|---|
| Text.Strip | magento-config-exporter.py:137-138 | the result is a contiguous piece of the input; everything cut off on either side is whitespace; the result neither starts nor ends with whitespace |
| Text.StripOf | magento-config-exporter.py:137-138 | stripping removes exactly the surrounding whitespace: for any whitespace before and after a piece with non-space ends, `Strip` returns that piece |
| Text.StripIdempotent | magento-config-exporter.py:137-138 | stripping a stripped string changes nothing |
| Text.FindFrom | magento-config-exporter.py:134 | the index found is an occurrence of the pattern with none earlier; `None` means the pattern occurs nowhere from the start index on |
| Text.SplitOnce | magento-config-exporter.py:134-136 | `None` exactly when the separator does not occur; otherwise key + separator + value rebuilds the line, and the cut sits at the first occurrence |
| Text.SplitAtFirst | magento-config-exporter.py:136 | the position of the first separator alone determines both halves of the split |
| Text.SplitBeforeHasNoSeparator | magento-config-exporter.py:136 | the part before the cut contains no complete separator (the part after it may) |
| Text.Lower | magento-config-exporter.py:171 | lower-casing keeps the length, leaves no ASCII capital, turns each capital into its small letter and keeps every other character |
| ConfigFilter.ParseLine | magento-config-exporter.py:133-138 | a line without " - " yields nothing; otherwise the entry is the stripped text before and after the first " - " |
| ConfigFilter.ParseAt | magento-config-exporter.py:136-138 | where the first " - " stands alone decides the key and the value of the entry |
| ConfigFilter.ParseFormatRoundTrip | magento-config-exporter.py:136-138 | a dump line printed from a key without whitespace and a value without whitespace at its ends parses back to the same key and value, even when the value contains " - " |
| ConfigFilter.FormatFirstSeparator | magento-config-exporter.py:134-136 | in a printed line whose key holds no whitespace, the first " - " is the one right after the key |
| ConfigFilter.StoreForPaths | magento-config-exporter.py:141-143 | storing once per matching prefix amounts to one store when at least one prefix matches, and no change otherwise |
| ConfigFilter.StoreMatching | magento-config-exporter.py:141-143 | the inner loop over the prefixes, as written, has exactly that net effect |
| ConfigFilter.Step | magento-config-exporter.py:133-143 | one line adds or overwrites only its own key, and only when that key matches a prefix; all other keys keep their values |
| ConfigFilter.Fold | magento-config-exporter.py:129-143 | every key in the map built from the lines starts with some requested prefix |
| ConfigFilter.FilterLines | magento-config-exporter.py:129-143 | the nested loops over lines and prefixes compute exactly the map `Collect` defines |
| ConfigFilter.FoldKeys | magento-config-exporter.py:133-143 | a key is in the built map if and only if some parsed line carries it and it matches a prefix |
| ConfigFilter.FoldLastWins | magento-config-exporter.py:143 | the last parsed line carrying a matching key decides its value |
| ConfigFilter.FoldSameMatches | magento-config-exporter.py:141-142 | two prefix lists that match the same keys build the same map |
| ConfigFilter.FoldSkipsNone | magento-config-exporter.py:134-135 | a line that yields no entry leaves the built map unchanged, wherever it stands |
| ConfigFilter.CollectKeys | magento-config-exporter.py:133-143 | a key is exported if and only if some line produces it (after trimming) and it starts with a requested prefix |
| ConfigFilter.LastWriteWins | magento-config-exporter.py:143 | the exported value of a key is the value on the last line that produces that key |
| ConfigFilter.PrefixOrderAndDuplicatesIrrelevant | magento-config-exporter.py:141-142 | two prefix lists with the same members give the same result, whatever their order or repetitions |
| ConfigFilter.EmptyPrefixKeepsEverything | magento-config-exporter.py:141-142 | with the empty prefix requested, every key some line produces is exported |
| ConfigFilter.LineWithoutSeparatorIgnored | magento-config-exporter.py:134-135 | inserting a line without " - " anywhere in the dump leaves the result unchanged |
| Exporter.FileNameRoundTrip | magento-config-exporter.py:157-160 | the output file name can be read back into the scope and the effective scope code |
| Exporter.FileNameInjective | magento-config-exporter.py:157-160 | two exports get the same file name only if they have the same scope and the same effective scope code |
| Exporter.DumpCommandRoundTrip | magento-config-exporter.py:121-123 | reading the dump command's argument vector back gives the binary, the scope and the effective scope code it was built from; the fourth argument appears only for a non-empty code |
| Exporter.ParseDumpCommandInverse | magento-config-exporter.py:121-123 | every argument vector the reader accepts is exactly the dump command built from what it reads back |
| Exporter.ScopeLabelFromFileName | magento-config-exporter.py:130-160 | the document label is the scope code the file name carries, or the scope name when the file name carries no code |
| Exporter.ScopeCodeUsedConsistently | magento-config-exporter.py:121-160 | the dump command and the file name read back the same scope and the same scope code, and the document label is that code, or the scope name when there is none |
| Exporter.AcceptedMeansYes | magento-config-exporter.py:171-172 | the answer lets the write proceed exactly when, stripped, it is "y" or "yes" in any letter case; an empty or blank answer aborts |
| Exporter.Run | magento-config-exporter.py:113-174 | an empty paths list stops the run before filtering; otherwise a declined answer stops it unless prompting is off; a successful run writes to the scope's file name a document whose one top-level label is the scope label, holding the filtered dump of the command built for this scope |
| Exporter.ExportHoldsExactlyMatchingKeys | magento-config-exporter.py:129-143 | the written document holds exactly the keys produced by the dump lines that match a prefix, and no others |
| Exporter.ExportKeepsLastValue | magento-config-exporter.py:143 | each written value is the value on the last dump line carrying that key |
| Exporter.NoInteractionIgnoresAnswer | magento-config-exporter.py:170-174 | with `--no-interaction` the answer has no effect on the run |

## Left out

- Argument parsing, colours, the help formatter, and `info`/`error`/`debug` output: user interface only. The scope choices survive as the `Scope` datatype.
- `run_command`, meaning the shell invocation, exit codes and the `"doesn't exist"` check on stderr: process I/O. The dump is the parameter `dump` of `Run`, from the argument vector to the printed lines. Joining the vector into a shell string, and the quoting trouble that can cause, is not modelled.
- The Magento binary check, the paths-file existence check, output directory resolution and creation, and opening files: filesystem I/O.
- YAML loading of the paths file: the prefixes arrive as a `seq<string>`. A missing `paths` key counts as the empty list, as `data.get("paths", [])` makes it. Non-string list items and non-mapping documents are not modelled.
- YAML dumping, including the `QuotedString` representer, sorted keys and the rendering of the document: an opaque library. The model stops at the document map.
- Exporter.FileNameInjective: distinct file names are proved, not distinct files. Joining the name to the output directory (line 162) goes through path normalisation, which is not modelled: codes such as `x/./y`, `x//y` and `x/y` land on one path. A case-insensitive filesystem would also merge `English` and `english`. Both are filesystem behaviour outside the model.
- Turning the command's raw output into lines (`strip().splitlines()`, line 59) is part of `run_command` and is not modelled: `Run` receives the lines it returns. Python's `splitlines()` recognises several line boundaries besides `\n`; the model takes the resulting list as given.
- The closing report of how many values were exported: output only.
- The `input()` call itself: the answer is a parameter of `Run`.
- Text.Lower: only ASCII letters are lowered, not the full Unicode mapping of Python's `lower()`. For `Accepted` this makes no difference as long as no non-ASCII character lowers to `y`, `e` or `s`. Unicode data has no such character, but the model does not prove this.
