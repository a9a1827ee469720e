# Unreal Audio Normalizer — a Dafny model of its core

The Unreal Audio Normalizer is a desktop tool. It brings a batch of audio
files to a loudness target (in LUFS) chosen from a table of presets. It
writes each result as a WAV file whose name carries the preset's suffix.
This project models the parts of `main.py` that decide what happens to
files and names, and proves properties of that model:

- **Presets** (`presets.dfy`): the LUFS preset table (`LUFSConfigManager`)
  and the preset dialog's "Add" and "Update" rules.
- **Output names** (`output.dfy`, `output_examples.dfy`):
  - `get_output_filename`: a known suffix is stripped, the new suffix
    added and `.wav` appended;
  - the override-folder sentinel;
  - the output-path label's split around the suffix.
- **Refinement** (`refine.dfy`): the iterative loudness loop of
  `normalize_files`.
  - Tolerance is 0.01 LUFS, with at most 50 passes.
  - Each pass adds the remaining error to the gain.
- **Batch** (`batch.dfy`): the control flow of `normalize_files`.
  - The empty-request and missing-folder guards.
  - The overwrite question.
  - Per-file failures are caught and recorded, and the batch goes on.
  - The counters and the five-entry summary lists.
- **Rows** (`rows.dfy`): the file-table operations that feed the batch.
  - `get_selected_filepaths`, `toggle_all_checkboxes` and
    `remove_selected_files`.
  - Building `files_to_process`.
- **Display** (`display.dfy`):
  - the drag-and-drop extension filter;
  - the predicted-gain and loudness colours;
  - the tolerance spin box.
- **Helpers** (`text.dfy`, `paths.dfy`):
  - Python's `str.strip`, `str.rfind`, `str.lower` and `str(int)`;
  - `posixpath` `basename`, `dirname`, `join` and `splitext`.

The audio libraries are parameters:
- loading and measuring (pydub, pyloudnorm), as a predicate on paths that
  says whether they get through without an exception;
- the meter (pyloudnorm), as a function from the cumulative gain in dB to
  the integrated loudness it reports;
- the exporter, as the effect an export has: it raises, writes, or
  returns without writing.

The file system is the set of paths that exist. The user's answer to the
overwrite question is a boolean parameter.

The code strips at most one suffix: the first preset suffix the name ends
with, trying the presets in ascending order of their LUFS key. That is not
always the longest suffix that matches.
`Output.FirstKnownSuffixIsLowestKey` states the order, and
`OutputExamples.FirstMatchIsNotLongestMatch` shows a table where the first
match is not the longest one.

The refinement loop ends within tolerance or after 50 passes, and the code
reports neither case to the user. The model returns the pass count
(`Refinement.Outcome.passes`).

## Model

| member | source | states |
|---|---|---|
| Text.Strip | main.py:852 | The stripped suffix text is a contiguous slice of the input. Only white space (Python's `isspace` set) is cut on either side, and the result neither starts nor ends with white space. |
| Text.StripIdempotent | main.py:310-311 | Stripping a stripped text changes nothing. |
| Text.LastIndexOf | main.py:737 | `rfind` finds an occurrence exactly when the substring occurs, and no occurrence lies after the index it returns. |
| Text.ParseNatToString | main.py:96 | The decimal text of a number reads back as that number. So `str(lufs)` loses nothing. |
| Text.IntToStringInjective | main.py:96 | Different LUFS keys get different fallback names. |
| Text.Lower | main.py:777 | Lower-casing keeps the length; ASCII capitals become the matching small letters and every other character is kept. |
| Paths.Basename | main.py:853 | The base name is a suffix of the path with no separator in it. A path without a separator is its own base name. |
| Paths.SplitExt | main.py:853 | Root and extension concatenate to the name. The extension is empty or starts at the last dot. A dot preceded only by dots starts no extension. |
| Paths.Join | main.py:869 | The joined path ends with the second part. An absolute second part replaces the first. Otherwise the result starts with the first part. |
| Paths.JoinSplitsBack | main.py:869-871 | Joining a directory with a separator-free name puts exactly one separator between them, and `dirname` and `basename` of the result give back the directory and the name. |
| Paths.Dirname | main.py:871 | The directory is a prefix of the path. It is empty when the path has no separator, and it does not end with a separator unless it is made only of separators. |
| Paths.SplitPath | main.py:853 | `basename` and `dirname` of `dir/name` give back `name` and `dir`. |
| Presets.LufsValues | main.py:89-90 | The keys are listed strictly ascending, each key exactly once. |
| Presets.LufsValuesUnique | main.py:89-90 | The ascending listing is the only one: any strictly ascending list of the table's keys equals it. |
| Presets.DefaultLufsValues | main.py:22-28 | The default table lists its keys as -20, -18, -16, -14, -12. |
| Presets.SuffixOf | main.py:92-93 | A preset's suffix for a known key, the empty string otherwise. |
| Presets.NameOf | main.py:95-96 | A preset's name for a known key, otherwise the key printed as an integer. |
| Presets.ColorOf | main.py:98-99 | A preset's colour for a known key, grey `#888888` otherwise. |
| Presets.AddPreset | main.py:101-106 | The key maps to the new preset and every other entry is unchanged. |
| Presets.RemovePreset | main.py:108-110 | The key is gone and every other entry is unchanged. Removing an absent key changes nothing. |
| Presets.CustomPreset | main.py:279 | An added preset's suffix is `_CUSTOM` followed by digits that read back as the key's magnitude. Its name starts with `Custom `, and its colour is grey `#888888`. |
| Presets.CustomPresetsDistinct | main.py:279 | Different keys give different names, and keys of the same sign give different suffixes. |
| Presets.DialogAdd | main.py:273-279 | The new key is the largest free key at or below -16, and every key between it and -16 is taken. The dialog's custom preset is added at that key, and the table grows by exactly one entry. |
| Presets.Rekey | main.py:323-327 | A successful update moves the preset from the old key to the new one, or overwrites it in place. The table keeps its size when the old key existed. |
| Presets.DialogUpdate | main.py:303-327 | The update happens exactly when a preset is selected, both stripped texts are non-empty, and the new key is the old one or free. Once a preset is selected and both texts are non-empty, every refusal is a key conflict. Only the old and new keys change. |
| Output.KnownSuffixes | main.py:855-857 | The candidate suffixes are exactly the table's non-empty suffixes. |
| Output.SuffixSource | main.py:855-857 | Each candidate comes from a key, and every earlier key's suffix is empty or is an earlier candidate. So the candidates keep the keys' ascending order. |
| Output.FirstKnownSuffixIsLowestKey | main.py:855-862 | The suffix removed belongs to the lowest LUFS key whose non-empty suffix ends the name. Nothing is removed exactly when no preset's suffix ends it. |
| Output.StripsLowestKeySuffix | main.py:855-863 | The kept stem followed by the lowest matching key's suffix is the original stem. |
| Output.FirstMatch | main.py:859-862 | The candidate found is one the base ends with, and no earlier candidate matches. With no match found, none matches. |
| Output.StripKnownSuffix | main.py:859-862 | The base is reduced by its first matching candidate, or kept whole when none matches. |
| Output.StripsFirstMatchUnique | main.py:859-862 | There is only one such reduction. So the first-match rule alone determines the kept stem. |
| Output.FinalName | main.py:853-864 | The file name is the stem with its first known suffix removed, then the stripped new suffix, then `.wav`. |
| Output.OutputFilename | main.py:851-872 | The result is the sentinel exactly when the override folder is on with no folder. Otherwise it is the final name joined to the override folder or to the input's directory. |
| Output.ReplacesFirstKnownSuffix | main.py:851-872 | Re-normalising `dir/x<d>.wav`, where `d` is the first known suffix that matches, gives `dir/x<s>.wav`: the suffix is replaced, not accumulated. |
| OutputExamples.DefaultKnownSuffixes | main.py:22-28 | With the default presets the suffixes are tried as `_AMB`, `_UI`, `_DLG`, `_MSC`, `_SFX`. |
| OutputExamples.NoSuffixAccumulation | main.py:853-864 | Under that order, `x_DLG.wav` normalised with `_SFX` becomes `x_SFX.wav`, not `x_DLG_SFX.wav`. |
| OutputExamples.FirstMatchIsNotLongestMatch | main.py:859-862 | With suffixes `_X` (tried first) and `_Y_X`, `x_Y_X.wav` keeps its `_Y`. Only the shorter, earlier suffix is removed. |
| Output.SplitHighlight | main.py:736-743 | The label splits only when the suffix is non-empty and occurs in the name. The three parts concatenate to the file name, the middle part is the suffix, and it is the LAST occurrence. |
| Output.OutputLabel | main.py:718-749 | The sentinel and the empty path get their own warnings. Otherwise the suffix is highlighted exactly when it occurs in the base name, and a plain label shows the path unchanged. |
| Output.HighlightFindsAppendedSuffix | main.py:736-743 | For a suffix with no dot and some letter outside `wav`, the label highlights the suffix the resolver appended before `.wav`. |
| Refinement.InitialGain | main.py:1766-1772 | The initial gain is the target minus the loudness measured on the unchanged input. |
| Refinement.Corrected | main.py:1777-1779 | One pass adds the target minus the current measurement to the gain. |
| Refinement.Refine | main.py:1766-1780 | The whole refinement of one file makes at most 50 passes, reports the meter's reading at the final gain, and ends within tolerance unless all 50 passes were used. |
| Refinement.RefineFrom | main.py:1774-1780 | Refinement stops within tolerance or at 50 passes, whichever comes first, and reports the measurement at the final gain. Starting within tolerance makes no pass. |
| Refinement.RefineLoop | main.py:1733-1780 | The loop keeps a trace of gains. Each pass applies exactly the error before it, and a pass runs only while out of tolerance. It ends within tolerance or after 50 passes, with no pass when the initial normalisation lands within tolerance. It agrees with `Refine`. |
| Refinement.ExactMeterNeedsNoPass | main.py:1766-1780 | A meter that tracks gain dB for dB reaches the target on the initial normalisation, with no refinement pass. |
| Refinement.PassScalesError | main.py:1777-1780 | For a meter linear in the gain with slope `a`, one pass multiplies the error by `1 - a`. |
| Refinement.LinearPassScales | main.py:1777-1780 | For such a meter this holds at every gain. |
| Refinement.ErrorAfterPasses | main.py:1774-1780 | When every pass scales the error by `x`, the error after `k` passes is `x^k` times the initial one. So the loop converges geometrically when `abs(x) < 1`. |
| Rows.SelectedFilepaths | main.py:1650-1665 | Exactly the paths of rows that have one (and are ticked, when only ticked rows are asked for) are listed. |
| Rows.SelectedFilepathsAppend | main.py:1650-1665 | Selection goes row by row, so it keeps table order. |
| Rows.ToggleAll | main.py:1246-1255 | Hidden rows are unticked and visible rows take the master box's state. Nothing else about a row changes. |
| Rows.UntickAllSelectsNothing | main.py:1246-1255 | After unticking the master box, "Normalize Selected" hands over nothing. |
| Rows.TickAllSelectsVisible | main.py:1246-1255 | After ticking the master box, "Normalize Selected" hands over exactly the visible rows' paths, in order. |
| Rows.CheckedIndices | main.py:1602-1606 | The indices collected are strictly ascending and are exactly the ticked rows. |
| Rows.RemoveSelected | main.py:1599-1616 | Removing from the last ticked index back to the first leaves exactly the unticked rows, in order. Exactly the ticked rows' paths lose their measured loudness, and other values are untouched. |
| Rows.FilesToProcess | main.py:1698-1703 | The jobs are every row whose path was requested, in table order, each with its own row's mono setting. |
| Rows.FilesToProcessAppend | main.py:1698-1703 | The job list follows the table's order. |
| Rows.FilesToProcessOfSelection | main.py:1698-1703 | When no path is in two rows, re-matching the selected paths against the table gives exactly the selected rows' jobs. |
| Rows.DuplicateUntickedRowIsProcessed | main.py:1698-1703 | A file in a ticked row and in an unticked row is handed over once but processed twice. The unticked row's mono setting runs last. |
| Rows.SelectedJobs | main.py:1650-1665 | The corrected job list: one job per listed row, each from a listed row. |
| Rows.SelectedJobsComplete | main.py:1650-1665 | Every listed row has its job in the corrected list. |
| Rows.SelectedJobsMatchRequest | main.py:1650-1665 | The corrected list matches the handed-over paths one to one and in order. |
| Batch.ProcessFile | main.py:1740-1813 | A file succeeds exactly when four things hold: the input exists; it loads and measures without an exception; the output path is usable; and after the export a file is at that path, because the export wrote it or an older file was there. A missing input fails first. "Invalid output path" happens exactly when the checks before it passed. Only an export that writes adds a file, its output path. |
| Batch.Advance | main.py:1810-1813 | A success adds one to the count. A failure appends the input's base name and error to the failures. |
| Batch.RunJobs | main.py:1736-1813 | After `i` jobs, successes plus failures number `i`. |
| Batch.RunJobsOnlyAdds | main.py:1739-1813 | The batch deletes nothing and creates only output paths of the jobs run. |
| Batch.FailuresComeFromJobs | main.py:1812-1813 | The failures come from distinct jobs, in the order those jobs ran. |
| Batch.ExistingOutputs | main.py:1705-1710 | The overwrite list holds exactly the base names of usable output paths that already exist. |
| Batch.ExistingOutputsAppend | main.py:1705-1710 | The list follows the jobs' order: the list for two runs of jobs, one after the other, is the first run's list followed by the second's. |
| Batch.RunBatch | main.py:1736-1814 | The loop runs every job once, in order, and ends in the state the reference `RunJobs` describes. |
| Batch.NormalizeJobs | main.py:1681-1832 | An empty request stops with "no files", before the missing-folder guard. Overwriting is declined exactly when outputs named from the starting settings exist and the user says no, and a stopped batch touches no file. A completed batch runs every job under the settings in force at its export and counts it once. While the override folder stays set, no file fails for lack of an output path. |
| Batch.NormalizeFiles | main.py:1681-1703 | `normalize_files` as written. An empty request stops first. A missing override folder stops next, exactly when the folder is enabled and empty. Overwriting is declined exactly when outputs exist and the user says no, and the question lists them. Otherwise one job runs per matching row, and every job is counted once. |
| Batch.NormalizeSelected | main.py:1681-1703 | The corrected batch has the same guards and overwrite question over the listed rows' jobs. Successes plus failures equal the number of paths handed over. |
| Batch.NoInvalidOutputPathInBatch | main.py:1794-1796 | While every job's output path is usable, the per-file check on the sentinel never fires. |
| Batch.FolderClearedMidBatch | main.py:1745-1796 | If the override folder is emptied while the batch runs, a job that exists and measures fails with "Invalid output path" at its export, and the batch goes on. |
| Batch.UnchangedSettings | main.py:1705-1710 | When no setting changes during the batch, the exports use the paths the overwrite check saw, and the folder stays set. |
| Batch.OutPathUsable | main.py:863-872 | Outside the sentinel case the output path ends in `.wav`, so it is usable. |
| Batch.PreviewOf | main.py:1712-1715 | A summary list shows the first min(n, 5) entries and counts the rest. There are more exactly when n > 5. |
| Batch.PreviewLines | main.py:1820-1823 | The shown entries come first, followed by the "more" line only when entries were left out. |
| Batch.MoreLine | main.py:1715 | The closing line starts with `... and ` and ends with ` more files`. |
| Batch.MoreLineCount | main.py:1715 | The closing line `... and <n> more files` holds the hidden count in decimal, and it reads back as that count. |
| Display.DroppedFiles | main.py:787-794 | A dropped path is kept exactly when its lower-cased form ends with an audio extension. |
| Display.DroppedFilesAppend | main.py:787-794 | The filter keeps drop order. |
| Display.DragAcceptedIff | main.py:771-785 | A drag is accepted exactly when some path would be kept. |
| Display.UpperCaseWavAccepted | main.py:777 | Case is ignored: `.WAV` is taken like `.wav`. |
| Display.AudioPathHasExtension | main.py:773-777 | Every path taken has a dot at least four characters from its end. |
| Display.PredictedGain | main.py:1409 | The predicted gain is the target minus the measured loudness. |
| Display.PredictedGainVersusInitialGain | main.py:1409 | The gain shown differs from the gain the batch's initial normalisation applies by exactly the gap between the batch's first meter reading and the table's stored loudness. The two gains are equal exactly when the two readings are. |
| Display.GainColour | main.py:1414-1419 | Green within 1 dB, orange within 3 dB, red beyond. |
| Display.GainColourMonotone | main.py:1414-1419 | The colour depends on the gain's size only, and a larger gain is never shown milder. |
| Display.UserTolerance | main.py:818-819 | The spin box counts tenths of a LUFS. |
| Display.LoudnessColour | main.py:1424-1425 | Loudness is green exactly within the tolerance of the target, red otherwise. |
| Display.OutOfUserToleranceIsRed | main.py:1479-1482 | The "out of tolerance" count uses exactly the red test. |
| Display.RefinedIsGreen | main.py:958 | A loudness within 0.01 LUFS of the target is green at every spin-box setting (1 to 50 tenths). |

## Left out

- The Qt user interface is not modelled: widgets, the progress bar, status texts, message boxes, the slider's drawing and the preset list's selection after a change. Button presses and answers become parameters.
- Audio playback (pygame), LUFS analysis of the table and the info label's other counters are not modelled. They do not decide what is written where.
- Sample handling is not modelled: decoding, mono mix-down, resampling to 48 kHz, float32 scaling and re-quantisation. The meter parameter stands for all of it, and reals are exact.
- Silent input is left out: pyloudnorm reports minus infinity and the code then computes with infinities.
- JSON loading and saving of the preset table is left out. The table is a map whose entries always carry suffix, name and colour, so `.get` on a partial entry is not modelled.
- `os.path.abspath` normalisation is not modelled. Paths are taken as already absolute and normalised, with `/` as the only separator.
- `os.makedirs` for the output directory is not modelled. The file system holds files only, so creating a directory never fails.
- Exception message texts (`str(e)`) are not modelled. Failures carry a tag instead (`Batch.FileError`).
- `str.lower` is modelled for ASCII letters only.
- The spin box's range of 1-50 tenths is modelled by `Display.MinTenths` and `Display.MaxTenths` and used in `Display.RefinedIsGreen`. The target slider's range is not modelled, so the target is any integer.
- `Batch.ProcessFile` is a fixed function of its parameters: the same input loads and measures the same each time.
- Display.PredictedGainVersusInitialGain: the table's loudness is a free parameter, not derived from the audio. `analyze_single_file` (main.py:1390-1400) reads it differently from the batch (main.py:1752-1768). It does no mono mix-down and no 48 kHz resampling. It divides by the sample type's maximum rather than 2^(8w-1). It hands stereo to the meter interleaved as one channel. How far the two readings differ is not modelled.
- Batch.ProcessFile: the file system changes only through this batch's exports. `QApplication.processEvents()` (main.py:1745) can start a second batch inside the first, and other programs can write files. Either can create an output the model's file system does not hold, and a later export that writes nothing is then a success in the program but `OutputNotCreated` in the model. Re-entrant batches and other writers are not modelled.
- Batch.ProcessFile: `Env.measurable` stands for every step from `AudioSegment.from_file` to the last meter reading (main.py:1752-1780). An exception in any of them, such as pyloudnorm refusing audio shorter than its 400 ms block, is one error, `MeasureFailed`. Which step raised is not modelled.
- Batch.NormalizeJobs: settings are modelled as changing only between files. `during(k)` is what `get_output_filename` reads at job `k`'s export. A change while the overwrite check is building its list is not modelled.
- Batch.NoInvalidOutputPathInBatch: promises no "Invalid output path" only while the folder stays set. `Batch.FolderClearedMidBatch` shows the failure when the folder is cleared during the batch (main.py:1745).
- `OutputExamples.NoSuffixAccumulation` and `OutputExamples.FirstMatchIsNotLongestMatch` take as a hypothesis the order in which the table's suffixes are tried. `OutputExamples.DefaultKnownSuffixes` proves that hypothesis for the default table.

## Findings

| source | as written | input that shows it | evidently intended | confidence | as-written member | corrected member |
|---|---|---|---|---|---|---|
| main.py:1698-1703 | `files_to_process` takes every table row whose path is in the requested list. Rows are not unique by path, because `add_list_item` never checks for an existing row. | Two rows for the same file: the first ticked with mono off, the second unticked with mono on. "Normalize Selected" hands over the path once, but two jobs run. The second job, from the unticked row, runs in mono and overwrites the first job's output. | One job per row the button meant: the ticked rows only, each with its own mono setting. | not executed | Rows.DuplicateUntickedRowIsProcessed | Rows.SelectedJobs |
