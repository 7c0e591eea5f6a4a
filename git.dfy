/** The git wrappers of `__init__.py`, each reduced to the processing it
    applies to the text a git (or `ps`) command printed. The command itself is
    not run: its captured output is a parameter. */
module Git {
  import opened PyStr

  // ---------------------------------------------------------------------------
  // isRepository, currentBranch: `output.replace("\n", "")`
  // ---------------------------------------------------------------------------

  /** `isRepository`: the output of `git rev-parse --is-inside-work-tree`, with
      every line feed removed, is exactly `true`. Equivalently, its lines run
      together spell `true`; an accepted output holds exactly four characters
      besides its line feeds. */
  predicate IsRepository(output: string): (r: bool)
    ensures r <==> Join(Split(output, '\n'), "") == "true"
    ensures r ==> |output| == Count(output, '\n') + 4
  {
    DeleteIsJoinOfSplit(output, '\n');
    DeleteLength(output, '\n');
    Delete(output, '\n') == "true"
  }

  /** `currentBranch`: the output of `git rev-parse --abbrev-ref HEAD` with
      every line feed removed; the name never holds a line feed. */
  function CurrentBranch(output: string): (name: string)
    ensures '\n' !in name
    ensures |name| <= |output|
  {
    Delete(output, '\n')
  }

  /** A line feed anywhere in the output makes no difference to the answer. */
  lemma IsRepositoryIgnoresLineFeed(before: string, after: string)
    ensures IsRepository(before + "\n" + after) == IsRepository(before + after)
  {
    DeleteAppend(before + "\n", after, '\n');
    DeleteAppend(before, "\n", '\n');
    DeleteAppend(before, after, '\n');
  }

  /** Outputs `isRepository` accepts and rejects: the usual `true\n`, a line
      feed inside the word, and `false\n`. */
  lemma IsRepositoryExamples()
    ensures IsRepository("true\n")
    ensures IsRepository("tr\nue")
    ensures !IsRepository("false\n")
    ensures !IsRepository("True\n")
  {
    DeleteAppend("True", "\n", '\n');
    DeleteNoOp("True", '\n');
    assert Delete("True\n", '\n') == "True";
  }

  /** Applying `currentBranch`'s clean-up to its own result changes nothing. */
  lemma CurrentBranchIdempotent(output: string)
    ensures CurrentBranch(CurrentBranch(output)) == CurrentBranch(output)
  {
    DeleteIdempotent(output, '\n');
  }

  /** Output without line feeds is returned unchanged, and so is the usual
      output of a branch name followed by one line feed. */
  lemma CurrentBranchOfName(name: string)
    requires '\n' !in name
    ensures CurrentBranch(name) == name
    ensures CurrentBranch(name + "\n") == name
  {
    DeleteNoOp(name, '\n');
    DeleteAppend(name, "\n", '\n');
  }

  /** Every character other than a line feed is kept, as often as it occurs. */
  lemma CurrentBranchKeepsCharacters(output: string, c: char)
    requires c != '\n'
    ensures Count(CurrentBranch(output), c) == Count(output, c)
  {
    DeleteCount(output, '\n', c);
  }

  // ---------------------------------------------------------------------------
  // checkout: success is read from what git printed on stderr
  // ---------------------------------------------------------------------------

  /** What `checkout` can come to: it returns normally, or it raises an
      exception carrying a message. */
  datatype CheckoutResult = Switched | CheckoutError(message: string)

  /** The notice git prints when it moves to `branch` (`"Switched to branch '%s'"`). */
  function SwitchedNotice(branch: string): string
  {
    "Switched to branch '" + branch + "'"
  }

  /** The notice git prints when `branch` is already checked out (`"Already on '%s'"`). */
  function AlreadyOnNotice(branch: string): string
  {
    "Already on '" + branch + "'"
  }

  /** The first line of the exception message `checkout` raises. */
  function CheckoutFailureHeadline(branch: string): string
  {
    "Could not switch to branch '" + branch + "'. Reason:"
  }

  /** The message of the exception `checkout` raises: it names the branch and
      holds all of stderr. */
  function CheckoutFailureMessage(branch: string, err: string): (message: string)
    ensures Contains(message, branch) && Contains(message, err)
  {
    var message := "Could not switch to branch '" + branch + "'. Reason:\n" + err;
    assert message == "Could not switch to branch '" + branch + ("'. Reason:\n" + err);
    ContainsInfix("Could not switch to branch '", branch, "'. Reason:\n" + err);
    assert message == ("Could not switch to branch '" + branch + "'. Reason:\n") + err + "";
    ContainsInfix("Could not switch to branch '" + branch + "'. Reason:\n", err, "");
    message
  }

  /** `checkout(branch)` given the text `err` that `git checkout branch` wrote
      on stderr: it succeeds exactly when either notice occurs in `err`, and
      otherwise fails with a message naming the branch and holding all of `err`. */
  function Checkout(branch: string, err: string): (r: CheckoutResult)
    ensures r.Switched? <==> Contains(err, SwitchedNotice(branch)) || Contains(err, AlreadyOnNotice(branch))
    ensures r.CheckoutError? ==> Contains(r.message, branch) && Contains(r.message, err)
  {
    if !Contains(err, SwitchedNotice(branch)) && !Contains(err, AlreadyOnNotice(branch)) then
      CheckoutError(CheckoutFailureMessage(branch, err))
    else
      Switched
  }

  /** Whatever else git prints around it, either notice makes `checkout`
      succeed. */
  lemma CheckoutAcceptsNotices(branch: string, before: string, after: string)
    ensures Checkout(branch, before + SwitchedNotice(branch) + after) == Switched
    ensures Checkout(branch, before + AlreadyOnNotice(branch) + after) == Switched
  {
    ContainsInfix(before, SwitchedNotice(branch), after);
    ContainsInfix(before, AlreadyOnNotice(branch), after);
  }

  /** When `checkout` succeeds, stderr names the requested branch in quotes. */
  lemma CheckoutSuccessQuotesBranch(branch: string, err: string)
    requires Checkout(branch, err) == Switched
    ensures Contains(err, "'" + branch + "'")
  {
    var quoted := "'" + branch + "'";
    if Contains(err, SwitchedNotice(branch)) {
      assert SwitchedNotice(branch) == "Switched to branch " + quoted + "";
      ContainsInfix("Switched to branch ", quoted, "");
      ContainsTransitive(quoted, SwitchedNotice(branch), err);
    } else {
      assert AlreadyOnNotice(branch) == "Already on " + quoted + "";
      ContainsInfix("Already on ", quoted, "");
      ContainsTransitive(quoted, AlreadyOnNotice(branch), err);
    }
  }

  /** A caller can read a failure message back: for a branch name without a
      line feed, its first line is the headline naming the branch, and
      everything after that line's line feed is stderr, unchanged. */
  lemma CheckoutFailureReadBack(branch: string, err: string)
    requires Checkout(branch, err).CheckoutError?
    requires '\n' !in branch
    ensures var m, first := Checkout(branch, err).message, CheckoutFailureHeadline(branch);
      && Split(m, '\n')[0] == first
      && |first| < |m| && m[|first|] == '\n'
      && m[|first| + 1..] == err
  {
    MessageReadBack(branch, err);
  }

  lemma MessageReadBack(branch: string, err: string)
    requires '\n' !in branch
    ensures var m, first := CheckoutFailureMessage(branch, err), CheckoutFailureHeadline(branch);
      && Split(m, '\n')[0] == first
      && |first| < |m| && m[|first|] == '\n'
      && m[|first| + 1..] == err
  {
    var first := CheckoutFailureHeadline(branch);
    var rest := "\n" + err;
    var m := CheckoutFailureMessage(branch, err);
    assert m == first + rest;
    HeadlineHasNoLineFeed(branch);
    SplitPrefix(first, rest, '\n');
    assert rest[1..] == err;
    assert Split(rest, '\n')[0] == "";
    assert first + "" == first;
  }

  lemma HeadlineHasNoLineFeed(branch: string)
    requires '\n' !in branch
    ensures '\n' !in CheckoutFailureHeadline(branch)
  {
    var a, b := "Could not switch to branch '", "'. Reason:";
    assert forall k :: 0 <= k < |a| ==> a[k] != '\n';
    assert forall k :: 0 <= k < |b| ==> b[k] != '\n';
    assert CheckoutFailureHeadline(branch) == a + branch + b;
  }

  // ---------------------------------------------------------------------------
  // commitDetails: `[commit[1:-1] for commit in output.split('\n')]`
  // ---------------------------------------------------------------------------

  /** `commit[1:-1]`: the line without its first and last character (the
      quotes the format string put around it). */
  function Unquote(line: string): (inner: string)
    ensures |line| <= 2 ==> inner == ""
    ensures |line| >= 2 ==> line == [line[0]] + inner + [line[|line| - 1]]
  {
    SliceDropEnds(line);
    Slice(line, 1, -1)
  }

  /** `commitDetails`: one entry per line of the `git log` output, in order,
      each line stripped of its first and last character. */
  function CommitDetails(output: string): (commits: seq<string>)
    ensures |commits| == Count(output, '\n') + 1
  {
    var lines := Split(output, '\n');
    seq(|lines|, i requires 0 <= i < |lines| => Unquote(lines[i]))
  }

  /** Entry `i` is line `i` of the output with exactly its first and last
      character removed; a line of at most two characters gives `""`. */
  lemma CommitDetailsEntry(output: string, i: int)
    requires 0 <= i < |CommitDetails(output)|
    ensures var line := Split(output, '\n')[i];
      && '\n' !in line
      && (|line| <= 2 ==> CommitDetails(output)[i] == "")
      && (|line| >= 2 ==> line == [line[0]] + CommitDetails(output)[i] + [line[|line| - 1]])
  {
  }

  /** Output from a range with no commits is empty and still gives one entry. */
  lemma CommitDetailsOfEmpty()
    ensures CommitDetails("") == [""]
  {
  }

  /** `"` + subject + `"`, as `--pretty=format:"..."` prints each commit. */
  function Quote(subject: string): string
  {
    "\"" + subject + "\""
  }

  /** The lines `git log --pretty=format:"..."` prints for a list of subjects. */
  function LogOutput(subjects: seq<string>): string
  {
    Join(seq(|subjects|, i requires 0 <= i < |subjects| => Quote(subjects[i])), "\n")
  }

  /** Parsing the log output of one or more commits whose formatted fields hold
      no line feed gives those fields back, in order. */
  lemma CommitDetailsRoundTrip(subjects: seq<string>)
    requires |subjects| > 0
    requires forall i :: 0 <= i < |subjects| ==> '\n' !in subjects[i]
    ensures CommitDetails(LogOutput(subjects)) == subjects
  {
    var lines := seq(|subjects|, i requires 0 <= i < |subjects| => Quote(subjects[i]));
    forall i | 0 <= i < |lines|
      ensures '\n' !in lines[i]
    {
      assert lines[i] == ['"'] + subjects[i] + ['"'];
    }
    SplitJoin(lines, '\n');
    forall i | 0 <= i < |subjects|
      ensures CommitDetails(LogOutput(subjects))[i] == subjects[i]
    {
      assert lines[i] == ['"'] + subjects[i] + ['"'];
      SliceUnwrap('"', subjects[i], '"');
    }
  }

  /** Two quoted subjects on two lines give the two subjects. */
  lemma CommitDetailsExample(output: string)
    requires output == "\"abc123 first\"\n\"def456 second\""
    ensures CommitDetails(output) == ["abc123 first", "def456 second"]
  {
    var subjects := ["abc123 first", "def456 second"];
    var lines := [Quote(subjects[0]), Quote(subjects[1])];
    assert seq(|subjects|, i requires 0 <= i < |subjects| => Quote(subjects[i])) == lines;
    JoinCons(lines[0], lines[1..], "\n");
    assert [lines[0]] + lines[1..] == lines;
    assert LogOutput(subjects) == output;
    CommitDetailsRoundTrip(subjects);
  }

  // ---------------------------------------------------------------------------
  // commitBody: `body[1:-1].strip()`
  // ---------------------------------------------------------------------------

  /** `commitBody`: the `%B` output without its first and last character, with
      the surrounding whitespace trimmed; the result starts and ends with a
      non-whitespace character, or is empty. */
  function CommitBody(body: string): (message: string)
    ensures IsStripped(message)
    ensures |message| <= |body|
  {
    Strip(Unquote(body))
  }

  /** On a quoted body the result is the stripped text between the quotes. */
  lemma CommitBodyUnquotes(m: string)
    ensures CommitBody(Quote(m)) == Strip(m)
  {
    assert Quote(m) == ['"'] + m + ['"'];
    SliceUnwrap('"', m, '"');
  }

  /** A message surrounded by any whitespace inside the quotes comes back
      exactly. */
  lemma CommitBodyRecoversMessage(lead: string, m: string, trail: string)
    requires AllSpace(lead) && AllSpace(trail) && IsStripped(m)
    ensures CommitBody(Quote(lead + m + trail)) == m
  {
    CommitBodyUnquotes(lead + m + trail);
    StripUnique(lead, m, trail);
  }

  /** A body of at most two characters gives the empty message. */
  lemma CommitBodyOfShort(body: string)
    requires |body| <= 2
    ensures CommitBody(body) == ""
  {
    SliceDropEnds(body);
  }

  // ---------------------------------------------------------------------------
  // pushForced: `'--force' in push_command or '-f' in push_command`
  // ---------------------------------------------------------------------------

  /** `pushForced`, given the parent's command line as `ps -ocommand=` prints
      it: either flag spelling occurs anywhere in it as a substring. Because
      `-f` occurs in `--force`, the answer is just whether `-f` occurs at some
      index of the command line. */
  predicate PushForced(command: string): (forced: bool)
    ensures forced <==> Contains(command, "-f")
    ensures forced <==> exists i :: OccursAt(command, "-f", i)
  {
    ShortFlagInLongFlag();
    ContainsThrough("-f", "--force", command);
    ContainsIffOccurs(command, "-f");
    Contains(command, "--force") || Contains(command, "-f")
  }

  lemma ShortFlagInLongFlag()
    ensures Contains("--force", "-f")
  {
    assert "-" + "-f" + "orce" == "--force";
    ContainsInfix("-", "-f", "orce");
  }

  /** Any command line with `-f` somewhere in it counts as forced: a flag, but
      also the `-f` in `--force-with-lease` or in a branch named `hot-fix`. */
  lemma PushForcedByInfix(before: string, after: string)
    ensures PushForced(before + "-f" + after)
  {
    ContainsInfix(before, "-f", after);
  }

  /** The short flag: `git push -f origin main` is forced. */
  lemma PushForcedShortExample(command: string)
    requires command == "git push -f origin main"
    ensures PushForced(command)
  {
    assert command[9] == '-' && command[10] == 'f';
    assert command[9..11] == "-f";
    OccursAtContains(command, "-f", 9);
  }

  /** A longer flag that merely contains `-f`: `git push --force-with-lease
      origin main` is forced. */
  lemma PushForcedLeaseExample(command: string)
    requires command == "git push --force-with-lease origin main"
    ensures PushForced(command)
  {
    assert command[10] == '-' && command[11] == 'f';
    assert command[10..12] == "-f";
    OccursAtContains(command, "-f", 10);
  }

  /** A false positive: pushing a branch named `hot-fix`, with no flag at all,
      counts as forced. */
  lemma PushForcedBranchExample(command: string)
    requires command == "git push origin hot-fix"
    ensures PushForced(command)
  {
    assert command[19] == '-' && command[20] == 'f';
    assert command[19..21] == "-f";
    OccursAtContains(command, "-f", 19);
  }
}
