# ActivePython installer core, in Dafny

This project models the decision logic of `_install.py`, the script that
installs an ActivePython build. Four pieces are modelled.

- **OpenSSL directory advice.** `_rank_openssl_dir`, `_analyze_ranks` and
  `_get_openssl_text` build the three `export ...` lines that the installer
  prints at the end.
  - The candidates are the directory reported by `openssl version -d`,
    followed by six conventional locations.
  - Each candidate that is a directory gets a score: 1 if it is the reported
    default, plus 4 if it holds `cert.pem`, plus 2 if it holds `certs/`.
  - The first candidate with the highest score is chosen. Its score, read
    in thresholds, decides which of `SSL_CERT_FILE` and `SSL_CERT_DIR` are
    advised.
- **User PATH update.** This is the list part of `_winregUpdatePath`. The
  new directories go in front of the current `;`-separated PATH. Empty
  entries are removed and repeats are dropped by `_list_dedupe`, which keeps
  first occurrences.
- **The yes/no prompt** (`_askYesNo`).
- **The install-directory check** (`_validateInstallDir`).

The filesystem is a snapshot: a map from path strings to `Directory`,
`RegularFile` or `Other`. The user's console is a sequence of typed lines,
and the registry's PATH value is a string passed in and returned.
`openssl version -d` is represented by its output, or by `None` when it
could not be run.

Modules:
- `Wrappers`: Option and Result.
- `Lists`: first index, filter and dedupe.
- `PyText`: `str.split`, `str.join`, ASCII `str.lower` and `posixpath.join`.
- `FileSystem`
- `InstallDir`
- `Prompt`
- `PathUpdate`
- `OpenSsl`

The rank dictionary is modelled as its keys in insertion order, each listed
once, together with a map from keys to values. Writing to an existing key keeps that key's
place, as a Python `dict` does.
A reported default that is also one of the fixed locations is therefore
ranked once, at the default's position.

## Model

| member | source | states |
|---|---|---|
| Lists.ListDedupe | _install.py:212-217 | the loop returns the order-preserving dedupe of its input: no repeats, at most as long, same elements |
| Lists.DedupeMember | _install.py:212-217 | a value survives the dedupe exactly when it occurs in the input |
| Lists.DedupeElements | _install.py:212-217 | the deduped list has exactly the elements of the input |
| Lists.DedupeNoDups | _install.py:212-217 | the deduped list has no repeated element |
| Lists.DedupeShorter | _install.py:212-217 | the deduped list is no longer than the input |
| Lists.DedupeOrderAt | _install.py:212-217 | kept elements appear in the order of their first occurrence in the input |
| Lists.DedupeOrder | _install.py:212-217 | the same, for all pairs of kept elements |
| Lists.DedupeOfNoDups | _install.py:212-217 | a list without repeats is unchanged by the dedupe |
| Lists.DedupeIdempotent | _install.py:212-217 | deduping twice gives what deduping once gives |
| Lists.RemoveDropped | _install.py:231-232 | `paths.remove("")` does not change the list of non-empty entries |
| Lists.FilterKeepsAll | _install.py:231-232 | once no empty entry is left, the list is its own non-empty filter |
| Lists.FilterKeepsOrder | _install.py:231-232 | dropping entries keeps the relative order of the first occurrences of the others |
| PathUpdate.UpdatePath | _install.py:228-233 | the value written is the `;`-join of the deduped non-empty entries of the new paths followed by the current ones |
| PathUpdate.PathEntriesShape | _install.py:220-233 | the written entries are non-empty and distinct, and are exactly the non-empty entries of the new and current PATH |
| PathUpdate.NewPathsFirst | _install.py:220-233 | every new path comes before every entry found only in the current PATH |
| PathUpdate.WrittenValueSplits | _install.py:229-233 | when no new path contains `;`, splitting the written value on `;` gives back the entries, and the value is empty exactly when there are none |
| PyText.Join | _install.py:233 | `";".join` of no pieces is empty; otherwise the text starts with the first piece, has at least one character per separator, and holds the separator once there are two pieces; SplitJoin and JoinSplit make it the inverse of Split |
| PyText.Split | _install.py:229 | `str.split` yields at least one piece, no piece contains the separator, and there is one piece exactly when the separator is absent |
| PyText.JoinSplit | _install.py:229-233 | joining the pieces of a split restores the string |
| PyText.SplitJoin | _install.py:229-233 | splitting a join of separator-free pieces restores the pieces |
| PyText.JoinEmpty | _install.py:233 | a join of non-empty pieces is empty exactly when there are no pieces |
| PyText.SplitNoSep | _install.py:299 | a string without the separator splits into itself |
| PyText.SplitAfterPiece | _install.py:299 | a separator after a separator-free prefix closes the first piece |
| PyText.LowerChar | _install.py:118 | the lowered character is never an ASCII capital, and it is the input or, for a capital, the letter 32 code points above |
| PyText.Lower | _install.py:118 | `str.lower` keeps the length, leaves no ASCII capital, changes each character only by lowering it, and leaves text without capitals unchanged |
| PyText.LowerIdempotent | _install.py:118 | lower-casing twice gives what lower-casing once gives |
| PyText.PathJoin | _install.py:314-315 | `os.path.join(dir, name)`: an absolute name replaces the directory; otherwise the result is the directory and the name with at most one character between them, none when the directory is empty or ends in `/` |
| PyText.PathJoinParts | _install.py:314-315 | `os.path.join(dir, name)` ends with `name`; for a relative `name` it starts with `dir`, and a `/` follows `dir` when `dir` is non-empty and does not end in one |
| InstallDir.ValidateInstallDir | _install.py:128-132 | the target is accepted exactly when it does not exist or is a directory; otherwise the error carries the installer's message |
| Prompt.PromptText | _install.py:107-117 | the prompt is the question plus the choices, with the default's letter in upper case and none when an answer is required |
| Prompt.Interpret | _install.py:118-124 | an empty line takes the default when there is one and is asked again otherwise; any other line is understood exactly when its lower-case form is an accepted reply; with a valid default every answer is "yes" or "no" |
| Prompt.InterpretClassifies | _install.py:106-124 | with a valid default, a line is answered "yes" exactly when it means yes, "no" exactly when it means no, and asked again otherwise |
| Prompt.RepliesIgnoreCase | _install.py:118-123 | any line that spells an accepted reply with any of its letters in upper case is answered as that reply |
| Prompt.Rounds | _install.py:116-125 | each reply that is not understood shows the prompt and then the retry message |
| Prompt.AskYesNo | _install.py:96-125 | an invalid default fails before reading, with the installer's message; otherwise the answer is "yes" or "no" and comes from the first understood line; every earlier line was rejected and the console shows the prompts and retries; input that runs out fails with every line rejected |
| OpenSsl.DefaultDirFromVersionOutput | _install.py:299 | `split('"')[1]` succeeds exactly when the output holds a quote, and the result holds none |
| OpenSsl.QuotedDirParsed | _install.py:299 | `OPENSSLDIR: "dir"` parses to `dir` |
| OpenSsl.DefaultOpenSslDir | _install.py:293-299 | a tool that cannot be run gives no default; otherwise the parse fails exactly when the output has no quote |
| OpenSsl.Candidates | _install.py:305-309 | the non-empty default comes first, then the six fixed locations; no candidate is the empty string |
| OpenSsl.Score | _install.py:317-323 | a directory's score is between 0 and 7 |
| OpenSsl.ScoreSignals | _install.py:317-323 | the score's odd part, its 4s and its 2s recover the default, `cert.pem` and `certs/` signals |
| OpenSsl.Put | _install.py:317-323 | a dict write keeps an existing key's place and appends a new key last, so no key is listed twice; the key then holds the written value and every other key keeps its value |
| OpenSsl.PutTwice | _install.py:317-323 | a second write to a key overrides the first |
| OpenSsl.Items | _install.py:332 | `r.items()` gives one pair per key, in insertion order |
| OpenSsl.ItemsOfDict | _install.py:332 | a pair is among the items exactly when its key is in the dict and its value is that key's value, and no key appears in two items |
| OpenSsl.WriteScore | _install.py:317-323 | the base write followed by `+= 4` and `+= 2` leaves the dict as one write of the base plus 4 when `cert.pem` was found plus 2 when `certs/` was found |
| OpenSsl.RankDir | _install.py:313-323 | one round of the loop for a directory leaves the dict as one write of that directory's score |
| OpenSsl.ScoredAsPut | _install.py:312-323 | writing one more directory's score extends a correctly scored dict by that directory, unless it is already a key |
| OpenSsl.RankDirs | _install.py:312-325 | the loop leaves as keys the candidates that are directories, each once, in the order first met, each holding that directory's score |
| OpenSsl.RankOpenSslDirs | _install.py:302-325 | over the default and the six fixed locations, the keys of the ranking are the candidates that are directories, each once, in the order first met, and each key holds that directory's score |
| OpenSsl.MaxValue | _install.py:331 | `max(values)` is an upper bound that some item attains |
| OpenSsl.MaxKeys | _install.py:332 | a key is listed exactly when some item holds it with the maximum; the list is non-empty exactly when some item holds the maximum, and its first key belongs to the first such item |
| OpenSsl.MaxKeysConcat | _install.py:332 | the keys for a concatenation of items are the keys for the first part followed by those for the second |
| OpenSsl.MaxKeysSingle | _install.py:332 | a single item gives its key exactly when it holds the maximum; with MaxKeysConcat this fixes the number and order of the keys: one per item holding the maximum, in item order |
| OpenSsl.FirstMaxKey | _install.py:331-345 | `max_keys[0]`, the key returned, belongs to the first item with the highest value |
| OpenSsl.AnalyzeRanks | _install.py:328-348 | an empty ranking gives no directory and no flags; otherwise the first highest-scored key is chosen, the file flag is set from 4 up, and the dir flag is set for 2-3 and from 6 up |
| OpenSsl.FlagsMatchChosenDir | _install.py:317-323 | on ranker scores the flag thresholds recover exactly whether the chosen directory holds `cert.pem` and `certs/` |
| OpenSsl.OpenSslText | _install.py:271-290 | the not-found message appears exactly when no directory is chosen; each export line is present exactly when its flag is set |
| OpenSsl.NothingRankedIffNoDir | _install.py:312-325 | the ranking is empty exactly when no candidate is a directory |
| OpenSsl.RankedAt | _install.py:312-325 | every candidate that is a directory is ranked with its own score |
| OpenSsl.ChosenIsMax | _install.py:328-348 | the chosen directory is an existing candidate and no existing candidate scores more |
| OpenSsl.ChosenIsFirst | _install.py:328-348 | every existing candidate met before the chosen one scores strictly less, so ties go to the first candidate |
| OpenSsl.ChosenIsBest | _install.py:302-348 | no directory is chosen exactly when no candidate is a directory; otherwise the chosen one is the first best candidate |
| OpenSsl.ChosenReport | _install.py:271-290 | on a ranking of non-empty candidates, the text for a chosen directory is that directory's report, whose cert lines match the files it holds |
| OpenSsl.OpenSslGuidance | _install.py:271-290 | the text is the not-found message exactly when no candidate is a directory; otherwise it is the report for the first best candidate, whose cert lines match the files present |
| OpenSsl.GetOpenSslText | _install.py:271-299 | a parse failure of the tool output propagates as the error; otherwise the result is the guidance for the parsed default |

## Left out

- Registry access (`_winregGetEnvKey`, `_winregSetEnvKey`): the current PATH value is a parameter and the new value is the result. A missing key is represented by the empty string.
- `subprocess.check_output(["openssl", "version", "-d"])`: its output is a parameter. `None` stands for `OSError` or `CalledProcessError`.
- In Python 3, `str(output)` is the repr of a bytes object, such as `b'OPENSSLDIR: "..."\n'`. The model's input is that repr text, not the raw output of `openssl`. The repr escapes backslashes and non-ASCII bytes (`\xc3\xa9`), and `'` when both quote kinds occur. So the directory that is parsed matches the one `openssl` printed only when that directory is printable ASCII with no backslash and no single quote. Directories outside that range are parsed as their escaped form, as the installer does.
- `os.path` queries are answered from a map snapshot. Symbolic links, permissions and path normalisation are not modelled. Paths are compared as exact strings.
- `os.path.join` is modelled as the two-argument `posixpath.join`. The ranker only runs on the POSIX branch of the installer.
- `str.lower` is modelled for ASCII only. Non-ASCII case folding is not modelled.
- Console output of `_analyze_ranks`, the warning about several top-ranked directories, is not modelled.
- `_askYesNo`'s console writes are returned as a sequence of strings. Buffering and the commented-out newline are not modelled.
- Copying and relocating the install image, `_qt_config`, COM registration, PyWin32 module loading, `interactiveInstall`, `install` and `main` with `getopt` are not modelled. They are I/O around the modelled decisions. The relocation code lives in the `activestate` module, which is not part of this model.
- `_getDefaultInstallDir` and `_getSystemDrive` are not modelled. They only read the environment and the platform.
