# reduce-file-size in Dafny

A model of the core of `reduce-file-size.py`, a small Tkinter tool that
re-encodes selected images as JPEG at a chosen quality and, optionally, at a
chosen width. Each result is written next to its input under the name
`<stem>-s<ext>`. A result is kept only when it is strictly smaller than the
input; otherwise it is deleted and the log says `Compression failed for
<path>`.

The project has these modules, one per file:

- `Wrappers` (`wrappers.dfy`): the `Option` type.
- `PosixPath` (`posix_path.dfy`): `os.path.split`, `os.path.splitext` and
  `os.path.join` with the POSIX semantics of CPython's `posixpath`.
  - `split` cuts after the last `/` and strips trailing slashes from a head
    that is not all slashes.
  - `splitext` takes the last dot of the file name, unless every character
    before it is a dot.
  - `join` restarts at an absolute second part. Otherwise it inserts a `/`
    unless the first part is empty or already ends in one.
- `OutputPath` (`output_path.dfy`): `getOutputPath`.
- `Params` (`params.dfy`): the validation of the quality and width texts in
  `select_files`. It covers `str.isdigit`, `int()`, the 1..100 range check
  and Python's truth value of the width.
- `Transcoder` (`transcoder.dfy`): `reduceImageSize`.
  - The filesystem is a map from path to file size.
  - The imaging library is an oracle `Codec`. It gives the decoded dimensions
    of a path, or a load failure, and the number of bytes the JPEG encoder
    writes.
  - The function returns how the call ended. It either raised (`Raised`), or
    it returned `True` or `False` together with the filesystem it leaves
    behind (`Finished`).
- `Batch` (`batch.dfy`): the loop of `select_files`.
  - It is written twice: as a recursive reference definition (`RunBatch`)
    and as a loop (`CompressAll`), and the two are proved equal.
  - The batch is stated for any per-file step. `select_files` runs it with
    `Compress`, which calls `reduceImageSize` on each path and its
    `getOutputPath` name.
  - The entry point `SelectFiles` takes the two entry texts and the paths the
    file dialog returned.

Three behaviours of the code are easy to misread:

- The new height is `int(width * (height / width))`, a truncation. It is not
  rounded to the nearest integer.
- The loop in `select_files` has no exception handler. An exception from
  `reduceImageSize`, such as an input that cannot be opened, ends the whole
  batch (`Abort`). It is not recorded as a per-file failure.
- A width text of `"0"` parses to `0`, and `if width:` treats that as "no
  resize". A width text that is not a digit string means "no resize" too; it
  is not an error.

## Model

| member | source | states |
|---|---|---|
| PosixPath.Split | reduce-file-size.py:43 | the tail of `split` holds no `/`, is a suffix of the path, and is cut right after a `/` when shorter than the path; the head is a prefix followed only by slashes up to the tail; those slashes are stripped exactly when the head is non-empty and not all slashes |
| PosixPath.SplitExt | reduce-file-size.py:44 | `splitext` cuts the path into two parts that concatenate back to it; the extension is empty or one dot followed by no dot and no `/`; there is an extension exactly when, after the last `/`, a character other than a dot is later followed by a dot |
| PosixPath.SplitJoin | reduce-file-size.py:43-46 | `split` undoes `join` for any head `split` can produce and any non-empty name without `/` |
| PosixPath.SplitJoinNamed | reduce-file-size.py:46 | joining under a directory that does not end in `/` inserts exactly one `/`, and `split` recovers both parts |
| PosixPath.SplitJoinSlashes | reduce-file-size.py:46 | joining under an all-slash (or empty) head concatenates, and `split` recovers both parts |
| OutputPath.OutputPathParts | reduce-file-size.py:42-46 | the output path has the same directory and extension as the input, and its stem is the input's stem followed by `-s` |
| OutputPath.OutputPathDiffers | reduce-file-size.py:42-46 | the output path is never the input path |
| OutputPath.NoDirectoryStaysBare | reduce-file-size.py:42-46 | a path without `/` gets an output name without `/`, namely stem + `-s` + extension |
| OutputPath.SplitExtInsertBeforeDot | reduce-file-size.py:44-45 | inserting `-s` before a non-empty extension leaves that extension the one `splitext` finds |
| OutputPath.SplitExtInsert | reduce-file-size.py:44-45 | the new file name splits into the old stem + `-s` and the old extension |
| OutputPath.BareNameWithExtension | reduce-file-size.py:42-46 | `a.b` becomes `a-s.b` for a bare name whose extension is its only dot |
| OutputPath.NameInDirectory | reduce-file-size.py:42-46 | `d/a.b` becomes `d/a-s.b` |
| OutputPath.ExampleDirectory | reduce-file-size.py:42-46 | `a/b.jpg` becomes `a/b-s.jpg` |
| OutputPath.ExampleBareName | reduce-file-size.py:42-46 | `b.png` becomes `b-s.png` |
| OutputPath.ExampleLastDot | reduce-file-size.py:44-45 | `a.tar.gz` becomes `a.tar-s.gz`: only the last extension is kept apart |
| OutputPath.ExampleLeadingDot | reduce-file-size.py:44-45 | `.bashrc` has no extension and becomes `.bashrc-s` |
| OutputPath.ExampleLeadingDotThenExtension | reduce-file-size.py:44-45 | `.a.b` becomes `.a-s.b`: a leading dot does not start the extension, a later dot does |
| Params.ParseQuality | reduce-file-size.py:49-53 | an accepted quality lies in 1..100 |
| Params.QualityAccepted | reduce-file-size.py:49-53 | a quality text is accepted with value `q` exactly when `q` is in 1..100 and the text is the decimal numeral of `q` behind any number of leading zeros |
| Params.QualityExamples | reduce-file-size.py:51 | `"0100"`, `"100"` and `"1"` are accepted; `"0"`, `"101"`, `""`, `"8a"` and `"-5"` are refused |
| Params.ParseWidth | reduce-file-size.py:55 | the width is absent exactly when the text is not a non-empty string of ASCII digits |
| Params.WidthRoundTrip | reduce-file-size.py:55 | the numeral of any `n`, behind any number of leading zeros, parses back to the width `n` |
| Params.WidthExamples | reduce-file-size.py:55 | `"0"` gives width 0, which requests no resize; `"-5"`, `" 50"` and `""` give no width |
| Params.ValueOfNumeral | reduce-file-size.py:51 | `int()` of the decimal numeral of `n` is `n` |
| Params.NumeralOfValue | reduce-file-size.py:51 | a digit string without a leading zero is the numeral of its value |
| Params.LeadingZeros | reduce-file-size.py:51 | leading zeros do not change the value `int()` reads |
| Transcoder.Resize | reduce-file-size.py:13-16 | without a requested width the dimensions are unchanged; with one, the call fails exactly when the image width is 0, and otherwise the new width is the requested one and the new height is the integer part of width·height/original width |
| Transcoder.ResizeToOwnWidth | reduce-file-size.py:13-16 | with the height computed as an exact integer part, resizing to the image's own width keeps its dimensions (the float arithmetic of the code does not always do so; see "Left out") |
| Transcoder.ReduceImageSize | reduce-file-size.py:6-25 | a missing or undecodable input raises a load error; otherwise the call raises exactly for a zero-width image with a resize requested; the report holds the decoded and resized dimensions and the encoder's size; the output is kept exactly when it is strictly smaller than the input, and is then the only change; otherwise the output path is gone; no other path changes |
| Transcoder.OutputOverInputDeletesIt | reduce-file-size.py:18-23 | compressing a file onto its own path never keeps it and removes the input |
| Transcoder.InputUntouched | reduce-file-size.py:18-23 | when output and input differ, the input file survives with its size |
| Batch.RunBatch | reduce-file-size.py:62-68 | the log has at most one entry per path; it has one for every path exactly when no exception cut the batch short, and an early stop happens at the path right after the last one logged (`AbortIsStep` ties it to the call that raised) |
| Batch.CompressAll | reduce-file-size.py:62-68 | the loop produces the same filesystem, log and abort as the recursive definition |
| Batch.SelectFiles | reduce-file-size.py:48-68 | a refused quality text ends the call before any file is touched; otherwise the batch runs with the parsed quality and width over the selected paths, each written to its `getOutputPath` name |
| Batch.AbortIsStep | reduce-file-size.py:62-68 | the batch ends early only when a call raises: every call before the one it stopped at returned, whatever it returned, and the call it stopped at raised the reported exception in the filesystem the earlier calls left, which is the filesystem the batch leaves |
| Batch.LogFollowsPaths | reduce-file-size.py:62-68 | the `i`-th log entry is about the `i`-th selected path |
| Batch.EntryIsStep | reduce-file-size.py:62-68 | the `i`-th log entry is the entry of the call on `paths[i]` in the filesystem left by the first `i` calls, none of which raised |
| Batch.EntryIsStepOutcome | reduce-file-size.py:62-68 | the `i`-th entry is `Compression failed` exactly when that call returned `False`, and its output is then gone; otherwise it reports a strictly smaller file |
| Batch.OnlyOutputsChange | reduce-file-size.py:62-68 | a batch changes no path except the output names of the files it processed |
| Batch.BatchCompletes | reduce-file-size.py:62-68 | if every selected file can be loaded and no selected file is the output name of any selected file, itself included, the batch processes all of them and leaves each selected file unchanged |
| Batch.SelectedFilesSurvive | reduce-file-size.py:62-68 | the same with `getOutputPath` names: here it suffices that no selected file is the `-s` name of a different selected file |
| Batch.OverlappingSelectionLosesFile | reduce-file-size.py:62-68 | if `a` and its `-s` name are both selected and `a` does not shrink, the first call deletes the second selected file, and the batch ends with a load error on it |

## Left out

- The window, the entry widgets and the file dialog. The dialog's file-type filter is also left out; the selected paths are a parameter.
- The message boxes and the text widget. The log is a sequence of entries that say which path it is and what the report holds. The text of the log lines is left out, including the KB figures and the percentage, which are floating point.
- Decoding, `convert("RGB")`, LANCZOS resampling and JPEG encoding belong to the imaging library. They are the `Codec` oracle.
- Transcoder.Codec: its answers depend on the path only. They do not change when an earlier step of the same batch rewrote the file at that path, because file contents are not modelled beyond their size.
- Transcoder.Resize: the source computes the height in floating point as `int(width * (height / width))`. The model uses the exact integer part of width·height/original width. The two can differ by one when the float product falls just below an integer, e.g. a 49-pixel-wide, 1-pixel-high image resized to width 49.
- Transcoder.Resize: the imaging library refuses to resize to a height of 0. That failure, and every other error the library can raise during the resize, is not modelled.
- Transcoder.ResizeToOwnWidth: holds of the exact integer part only. In the float arithmetic of the code, `int(7 * (61 / 7))` is 60, so a 7×61 image resized to width 7 becomes 7×60, and a 49×1 image gets height 0, which the imaging library refuses.
- Transcoder.ReduceImageSize: errors raised by `img.save` are not modelled. `convert("RGB")` is applied only to the `RGBA` and `P` modes, so an image in another mode the JPEG encoder cannot write, such as grayscale with alpha (`LA`) or 16-bit (`I;16`), makes the save raise `OSError`. In the code that ends the batch; in the model the call finishes. Errors of the filesystem during the save or the removal are not modelled either.
- Params.ParseWidth: only ASCII digits are read. `int()` accepts every Unicode decimal digit, so the code resizes to a width written in fullwidth digits such as `"５０"`, where the model requests no resize. For a text such as `"²"`, which `str.isdigit` accepts but `int()` does not, the code raises before the file dialog opens and no file is processed, where the model runs the batch without a resize.
- Params.ParseQuality: only ASCII digits are read. The code accepts a quality written in fullwidth digits such as `"５０"`, which the model refuses. For a text such as `"²"` the code raises from `int()` instead of showing the error dialog; the model refuses it.
- Windows path rules (`ntpath`) are left out: `os.path` is modelled as on POSIX.
- Batch.SelectedFilesSurvive: paths are compared as strings. `a//b-s.jpg`, `./a/b-s.jpg` and `a/b-s.jpg` name the same file but are different keys of the filesystem map, and the no-collision requirement means string inequality only. Symbolic links and case-insensitive filesystems are not modelled either.
- `windowGUI` and the module's start-up code are user-interface wiring.
