# git output post-processing, modelled in Dafny

The Python package `git` (bdoms/git) is a thin wrapper over the `git` command
line for hook scripts. Each wrapper runs one command and cleans up what it
printed. This project models that clean-up. The captured output of each
command is a plain string parameter, and the model proves what each wrapper
makes of it:

- `isRepository` and `currentBranch` remove every line feed from the output of
  `git rev-parse`. `isRepository` then compares the rest with `true`.
- `checkout` reads git's stderr. It succeeds iff the text holds
  `Switched to branch '<b>'` or `Already on '<b>'`. Otherwise it raises an
  exception whose message names the branch and carries all of stderr.
- `commitDetails` splits the `git log --pretty=format:"..."` output into lines.
  It drops the first and last character of each line, which are the quotes the
  format string put there.
- `commitBody` drops the two quotes around a `%B` body and trims the
  whitespace around what is left.
- `pushForced` looks at the parent process's command line. It answers whether
  `--force` or `-f` occurs anywhere in it.

Two modules:

- `PyStr` (`py_str.dfy`) holds the Python 2 `str` operations the wrappers
  apply, each with its defining properties. These are `pat in s`,
  `s.replace(c, "")`, `s.split(c)`, slicing `s[a:b]` with Python's rules for
  negative and out-of-range bounds, and `s.strip()`. The module also defines
  `s.count(c)` and `sep.join(parts)`. The wrappers never call these two; they
  only state properties of the others: how many pieces a split gives, what a
  removal keeps, and what undoes a split.
- `Git` (`git.dfy`) holds the six wrappers. Their results are stated in terms
  of `PyStr`.

The code is Python 2: `check_output` returns a byte `str`. So `strip()` removes
exactly the C `isspace` characters: space, tab, line feed, carriage return,
vertical tab and form feed. Strings are `seq<char>`.

Three details of the code:

- `isRepository` and `currentBranch` remove every line feed, not only a
  trailing one.
- The docstring of `checkout` says it returns `True` or `False`. The code
  returns nothing on success and raises `Exception` with a formatted message on
  failure. The model returns `Switched` or `CheckoutError(message)`.
- `commitDetails` and `commitBody` rely on the quotes that the
  `--pretty=format:"..."` argument puts around each entry. They drop the first
  and last character whatever those characters are.

## Model

| member | source | states |
|---|---|---|
| `PyStr.ContainsIffOccurs` | __init__.py:27 | `pat in s` holds exactly when `pat` occurs in `s` at some index, in both directions |
| `PyStr.ContainsInfix` | __init__.py:27 | a string is `in` any string built as `x + pat + y` |
| `PyStr.ContainsTransitive` | __init__.py:46 | `in` is transitive: if a is in b and b is in c, then a is in c |
| `PyStr.Contains` | __init__.py:27 | `pat in s`: the empty string is in every string, and a string is only in strings at least as long; `ContainsIffOccurs` gives the exact meaning |
| `PyStr.Delete` | __init__.py:14 | `s.replace("\n", "")` leaves no line feed and is never longer than `s` |
| `PyStr.DeleteCount` | __init__.py:18 | removal keeps every other character exactly as many times as it occurred, and leaves none of the removed one |
| `PyStr.DeleteNoOp` | __init__.py:18 | a string without line feeds passes through `replace` unchanged |
| `PyStr.DeleteIdempotent` | __init__.py:18 | removing line feeds twice equals removing them once |
| `PyStr.DeleteAppend` | __init__.py:14 | `replace` on a concatenation is the concatenation of the two replaced halves |
| `PyStr.DeleteLength` | __init__.py:18 | removal shortens the string by exactly the number of removed characters |
| `PyStr.DeleteIsJoinOfSplit` | __init__.py:14 | `s.replace(c, "")` equals `"".join(s.split(c))` |
| `PyStr.Split` | __init__.py:33 | `s.split("\n")` has one more piece than `s` has line feeds, and no piece holds a line feed |
| `PyStr.JoinSplit` | __init__.py:33 | joining the pieces of a split with the separator gives back the original string |
| `PyStr.SplitJoin` | __init__.py:33 | splitting a join of one or more separator-free pieces gives back exactly those pieces |
| `PyStr.SliceIndex` | __init__.py:34 | a slice bound in `0..n` is kept, a negative one counts from the end, and the result lies in `0..n` |
| `PyStr.Slice` | __init__.py:34 | `s[a:b]` is never longer than `s`, equals `s[a..b]` when `0 <= a <= b <= len(s)`, and any non-empty result occurs in `s` at the normalised start bound |
| `PyStr.SliceDropEnds` | __init__.py:34 | `s[1:-1]` is `""` when `s` has at most two characters; otherwise `s` is its first character, then `s[1:-1]`, then its last character |
| `PyStr.SliceUnwrap` | __init__.py:38 | `s[1:-1]` undoes wrapping a string in one character on each side |
| `PyStr.LStrip` | __init__.py:38 | left strip returns a suffix of `s` that does not start with whitespace, and everything it drops is whitespace |
| `PyStr.RStrip` | __init__.py:38 | right strip returns a prefix of `s` that does not end with whitespace, and everything it drops is whitespace |
| `PyStr.Strip` | __init__.py:38 | `strip()` leaves no whitespace at either end and is never longer than its input |
| `PyStr.StripUnique` | __init__.py:38 | for any whitespace around a string whose ends are not whitespace, `strip()` gives exactly that string |
| `PyStr.StripSurrounded` | __init__.py:38 | every string is its `strip()` result with only whitespace before and after it |
| `PyStr.StripIdempotent` | __init__.py:38 | stripping twice equals stripping once |
| `Git.IsRepository` | __init__.py:14 | true exactly when the output's lines, run together, spell `true`; an accepted output has exactly four characters besides its line feeds |
| `Git.CurrentBranch` | __init__.py:18 | the branch name returned holds no line feed and is no longer than the output |
| `Git.IsRepositoryIgnoresLineFeed` | __init__.py:14 | inserting a line feed anywhere in the output never changes the answer |
| `Git.IsRepositoryExamples` | __init__.py:14 | `"true\n"` and `"tr\nue"` are accepted; `"false\n"` and `"True\n"` are rejected |
| `Git.CurrentBranchIdempotent` | __init__.py:18 | cleaning up the returned name again changes nothing |
| `Git.CurrentBranchOfName` | __init__.py:18 | a name without line feeds comes back unchanged, bare or followed by one line feed |
| `Git.CurrentBranchKeepsCharacters` | __init__.py:18 | every character except the line feed is kept as many times as it occurs |
| `Git.Checkout` | __init__.py:20-28 | success iff stderr holds `Switched to branch '<b>'` or `Already on '<b>'`; a failure's message holds both the branch and all of stderr |
| `Git.CheckoutAcceptsNotices` | __init__.py:25-27 | either notice, with anything before or after it on stderr, makes checkout succeed |
| `Git.CheckoutSuccessQuotesBranch` | __init__.py:25-27 | on success stderr holds the requested branch name between single quotes |
| `Git.CheckoutFailureMessage` | __init__.py:28 | the exception message contains the branch name and all of stderr |
| `Git.CheckoutFailureReadBack` | __init__.py:28 | for a branch name without line feeds, the message's first line is `Could not switch to branch '<b>'. Reason:`, and everything after that line's line feed is stderr, unchanged |
| `Git.Unquote` | __init__.py:34 | `line[1:-1]` is `""` for a line of at most two characters; otherwise the line is its first character, then the result, then its last character |
| `Git.CommitDetails` | __init__.py:30-34 | one entry per line: the entry count is the number of line feeds plus one |
| `Git.CommitDetailsEntry` | __init__.py:33-34 | entry `i` is line `i` with exactly its first and last character removed; a line of at most two characters gives `""` |
| `Git.CommitDetailsOfEmpty` | __init__.py:32-34 | empty log output gives `[""]`, not `[]` |
| `Git.CommitDetailsRoundTrip` | __init__.py:32-34 | for one or more quoted fields without line feeds, joined by line feeds, parsing gives back those fields in order |
| `Git.CommitDetailsExample` | __init__.py:32-34 | `"abc123 first"` and `"def456 second"` on two quoted lines give `["abc123 first", "def456 second"]` |
| `Git.CommitBody` | __init__.py:36-38 | the body has no whitespace at either end and is no longer than the raw output |
| `Git.CommitBodyUnquotes` | __init__.py:37-38 | on a quoted body `"m"` the result is `m.strip()` |
| `Git.CommitBodyRecoversMessage` | __init__.py:37-38 | a message whose ends are not whitespace comes back exactly, whatever whitespace surrounds it inside the quotes |
| `Git.CommitBodyOfShort` | __init__.py:38 | raw output of at most two characters gives the empty body |
| `Git.PushForced` | __init__.py:46 | forced exactly when `-f` occurs in the command line (as `in` and at some index), because `-f` occurs in `--force` |
| `Git.PushForcedByInfix` | __init__.py:46 | any command line containing `-f` anywhere counts as forced |
| `Git.PushForcedShortExample` | __init__.py:46 | `git push -f origin main` is forced |
| `Git.PushForcedLeaseExample` | __init__.py:46 | `git push --force-with-lease origin main` is forced |
| `Git.PushForcedBranchExample` | __init__.py:46 | `git push origin hot-fix` is forced, a false positive that needs no flag at all |

## Left out

- Running the commands. The `subprocess.call`, `check_output` and `Popen` calls at __init__.py:8, 14, 18, 23, 32, 37, 41 and 45 are process I/O. Their captured text is a parameter instead.
- The parent process's command line. `os.getppid` and the `ps -ocommand= -p <pid>` query are operating-system state, so `PushForced` receives the command line as a string.
- `installed`. Its only logic is catching `OSError` when `git` cannot be spawned.
- `remotesWithCommit`. It returns the command's output with no processing.
- The `CalledProcessError` that `check_output` raises on a non-zero exit. It belongs to the Python library, not to this code.
- What text git actually prints. For example, `git checkout` of a remote-only branch reports `Switched to a new branch '<b>'`, and `checkout` treats that as a failure. The model states the templates exactly, but git's wording is not part of it.
- The arguments passed to the commands: the format string wrapped in quotes and the commit range. These only shape the command line.
- Python 2 byte strings versus unicode. Strings are `seq<char>`, and whitespace is the explicit six-character set above.
