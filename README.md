# docbuilder: report checks and command proxy, in Dafny

This project models the two pieces of logic in the docbuilder repository that do more than call other programs.

- **The report cross-checker** (`validate_report.py`, module `ValidateReport`):
  - which repository files are handed to the XML parser;
  - which `Findings` and `Non-Findings` files the master report must mention;
  - the cross-check that looks up each of those paths in the raw report text;
  - the search for the `TODO` marker in the text of every element of the parsed report;
  - the way `main` folds these results into one verdict.
- **The command proxy** (`docbuilder_proxy.py`, module `DocbuilderProxy`):
  - reading `host` and `command` from the contents of `docbuilder.yml`;
  - the choice between preflight mode and command mode;
  - assembling the remote command line;
  - the preflight checks, with their single retry.

Module `Strings` defines, with their Python meaning, the string and list operations the scripts call:
- `str.find`;
- `in` on strings;
- ASCII `lower()`;
- `endswith`;
- `' '.join`;
- list comprehensions with a condition.

It also defines `startswith`, which states what the `re.search('^' + type_path, ...)` of `get_type` means, and `split`, which states that `join` can be undone.

Some things are inputs to the model rather than computed by it:
- the `git ls-files` listing, as a sequence of names;
- the report text;
- the parsed element tree, as a `Node` datatype;
- the outcome of parsing each file, as a function `validXml`;
- the outcomes of the `vagrant` and `vboxmanage` commands;
- the box status;
- the configuration file: its contents, or the error number of a failed open.

Code that works step by step is modelled as methods:
- `ValidateFiles`, `CrossCheckFiles` and `FindKeyword` are loops that fold a `result` flag;
- `RunAllChecks` runs the three checks in turn and clears `result` on a failure;
- `PreflightChecks` runs its checks with early exits and one recursive retry.

Each method is proved against specification functions, and lemmas give the meaning of those functions. The expression-only code is modelled as functions:
- the eligibility test;
- `get_type`;
- `read_config`;
- command assembly.

Two facts about `main` in `validate_report.py` shape the model of it:
- `main` (lines 134-162) only prints the verdict and returns nothing, so the exit status does not depend on it. `RunAllChecks` returns the printed verdict.
- A failed `validate_files` prints a message but does not clear `result` (lines 152-158). `RunAllChecks` states this: with the build switched off, the verdict is exactly "keyword check passed and cross-check passed".

## Model

| member | source | states |
|---|---|---|
| Strings.Find | validate_report.py:114 | `find` returns -1 exactly when the path does not occur; otherwise it returns an index where the path occurs with no occurrence before it |
| Strings.XmlSuffixAnyCase | validate_report.py:53 | the lower-cased name ends in `.xml` exactly when the name ends in `.` followed by x, m and l in either case |
| ValidateReport.EligibleFiles | validate_report.py:53-55 | a file is handed to the parser exactly when it is in the listing and is eligible; the eligible files keep their listing order |
| ValidateReport.EligibilityExamples | validate_report.py:27 | the extension test ignores case, but the `/snippets/` test does not; a quoted `xml"` name is eligible; `.xml.bak` is not |
| ValidateReport.ValidateFiles | validate_report.py:46-57 | the files parsed are exactly the eligible ones, in order, including those after a failure; the result is true exactly when every eligible file parses |
| ValidateReport.IneligibleIgnored | validate_report.py:51-57 | inserting an ineligible file anywhere in the listing changes neither the files parsed nor the verdict |
| ValidateReport.GetTypeSelects | validate_report.py:89-95 | `get_type(p)` selects exactly the listed files with a lower-cased `.xml` ending that start with `p`; they keep their listing order |
| ValidateReport.QuotedNotSelected | validate_report.py:93-95 | a quoted name ending in `xml"` is never selected by `get_type` |
| ValidateReport.SelectedAreXml | validate_report.py:93-95 | every file `get_type` selects also passes the extension test of `validate_files` |
| ValidateReport.TypesDisjoint | validate_report.py:112 | no file is selected both as a finding and as a non-finding |
| ValidateReport.ReferencedSelects | validate_report.py:112-113 | a file must be mentioned in the report exactly when it is selected for one of the type paths |
| ValidateReport.MissingNone | validate_report.py:114-116 | no path is missing exactly when every selected path occurs in the report text |
| ValidateReport.CrossCheckFiles | validate_report.py:106-117 | every selected path that does not occur in the report is reported, in scan order, and the scan does not stop at a miss; the result is true exactly when every path occurs |
| ValidateReport.UnreferencedFindingFails | validate_report.py:114-116 | any listing with a finding or non-finding whose path the report text does not contain fails the cross-check |
| ValidateReport.CleanIffNoHits | validate_report.py:126 | the pre-order walk includes the root and reaches every element at every depth: no element has the keyword exactly when no element on the walk has it |
| ValidateReport.NoHitsIffNoneReported | validate_report.py:127-130 | no element is reported exactly when no visited element has non-empty text containing the keyword |
| ValidateReport.FindKeyword | validate_report.py:120-131 | the elements reported are those on the walk whose text is non-empty and contains the keyword; the result is true exactly when no element of the tree has such text |
| ValidateReport.TailAndAttributesIgnored | validate_report.py:127-128 | removing every attribute and every tail text does not change the keyword verdict |
| ValidateReport.RunAllChecks | validate_report.py:134-162 | each check's verdict is its specification. The build runs only when XML validation passed and the build switch is on. The overall result is keyword ∧ cross-check ∧ (build ran ⇒ build ok). With the switch off as shipped, XML failures do not affect the result |
| DocbuilderProxy.SkipSpace | docbuilder_proxy.py:125 | `\s?` moves past one character exactly when that character is whitespace |
| DocbuilderProxy.TakeLine | docbuilder_proxy.py:125 | `(.*)` captures the characters up to the next newline or the end, and never a newline |
| DocbuilderProxy.LineAtUnique | docbuilder_proxy.py:125 | the capture at a position is unique |
| DocbuilderProxy.FindValue | docbuilder_proxy.py:125-126 | there is no match exactly when `key:` does not occur. Otherwise the value is the line starting after the leftmost `key:` and at most one whitespace character |
| DocbuilderProxy.ReadConfig | docbuilder_proxy.py:118-132 | an unopenable file exits with its error number. Readable text yields a configuration exactly when both `host:` and `command:` occur, and exits with -1 otherwise. Neither value holds a newline |
| DocbuilderProxy.CommandKeyFirstAt | docbuilder_proxy.py:126 | in a file written as `host:` line then `command:` line, the first `command:` is the one on the second line, unless the host value itself contains `command:` |
| DocbuilderProxy.ReadRendered | docbuilder_proxy.py:118-132 | reading back such a file gives both values unchanged, whenever neither spans lines and the host does not contain `command:` |
| DocbuilderProxy.GhostKeyMatches | docbuilder_proxy.py:125-126 | the key is not anchored to a line start: `ghost: a` supplies the host `a` |
| DocbuilderProxy.KeyAtEndOfLine | docbuilder_proxy.py:125 | `\s?` can consume the newline after `host:`, so the next line becomes the host, with its leading spaces kept |
| DocbuilderProxy.MissingKeyExits | docbuilder_proxy.py:130-131 | any readable file that lacks `host:` or `command:` ends the program with -1 |
| DocbuilderProxy.AssembleCommand | docbuilder_proxy.py:143-144 | with no arguments the configured command is unchanged; otherwise the command line starts with the command and a space |
| DocbuilderProxy.OptionsRecoverable | docbuilder_proxy.py:143-144 | arguments without spaces can be split back out of the assembled command line, unchanged and in order |
| DocbuilderProxy.StatusSubstrings | docbuilder_proxy.py:75 | an empty status and `run` count as running, because the test is "substring of `running`"; `poweroff` does not |
| DocbuilderProxy.PreflightPaths | docbuilder_proxy.py:58-115 | characterises each exit path by the command outcomes. A missing tool is detected only on the first run (-1, -5). A box that cannot be started gives -5. A connection that fails on the first run and on the retry gives -6. After a connection the outcome of reading the configuration decides: `Ready` (0) or its exit code |
| DocbuilderProxy.RetrySkipsTools | docbuilder_proxy.py:64-70 | the retry runs no tool probes |
| DocbuilderProxy.AtMostTwoAttempts | docbuilder_proxy.py:81-86 | a connection is attempted at most twice, and at most once on the retry |
| DocbuilderProxy.StatusQueriedFirst | docbuilder_proxy.py:71-78 | once the tools are there, the status is queried first, and the box is started exactly when its status does not look running |
| DocbuilderProxy.ConfigReadOnlyWhenConnected | docbuilder_proxy.py:81-88 | the configuration is read exactly when a connection was made in this round or the retry |
| DocbuilderProxy.PreflightChecks | docbuilder_proxy.py:58-115 | the exit path and the steps taken are those of the specification functions that the lemmas above characterise |
| DocbuilderProxy.RunProxy | docbuilder_proxy.py:135-149 | preflight mode is chosen exactly when there is one argument and it contains `check`. That mode always ends with the checks' exit code and sends no command. Otherwise a failed configuration read exits with its code, and a successful one sends the assembled command to the configured host |

## Left out

- I/O is not modelled: printing, `sys.stdout.flush`, opening files, `mmap` and subprocesses. Their results are inputs.
- `all_files`, `validate_xml` and `command_fails` are not modelled. `all_files` is `git ls-files`. `validate_xml` is a SAX parse. `command_fails` runs a process. Each is an input value or function.
- `proxy_vagrant.vagrant_status` is not part of this model. It is not defined in the repository's `proxy_vagrant.py`. The id and status it returns are an input for each round.
- `proxy_vagrant.execute_command` is not modelled. Command mode ends with the command and host it would be given. The exit code it returns and its `OSError` path (docbuilder_proxy.py:145-149) are left out.
- `validate_report` (validate_report.py:60-67) is not modelled. It is the remote build, and it is dead while `DOCBUILDER` is false. It also calls `read_config()` without the file name that docbuilder_proxy.py:118 requires. Its outcome is the `buildOk` input of `RunAllChecks`, and the build switch is the `docbuilder` parameter.
- `docbuilder.py` and `proxy_vagrant.py` are not modelled. They consist of argument parsing and calls to external programs.
- ValidateReport.GetTypeSelects: `re.search('^' + type_path, ...)` is modelled as a prefix test. This is exact for the two type paths used, `Findings` and `Non-Findings`, which contain no regular-expression metacharacter. Other patterns are not modelled.
- ValidateReport.CrossCheckFiles: `get_type` lists the repository afresh on each call. The model uses one listing for both types.
- Strings.Lower is Python 2's `lower()` on byte strings: only `A`-`Z` change. Locale-dependent and Unicode case mapping are not modelled.
- DocbuilderProxy.SkipSpace: `\s` is the ASCII whitespace set of a Python 2 byte-string pattern. Unicode whitespace is not included.
- DocbuilderProxy.PreflightChecks does not model the process exit codes. Python passes negative codes such as -1, -5 and -6 to the operating system, which reduces them to 8 bits. The model keeps the values given to `sys.exit` and `print_exit`. Of all printed output, only the sequence of steps is kept.
- DocbuilderProxy.RunProxy: `sys.argv` always holds the program name, so the model requires a non-empty argument vector.
