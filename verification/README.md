# Rule-based phishing classifier, modelled in Dafny

`main.py` is a small heuristic email-phishing classifier. It has four checks:

- **Links.** The host of the email's link is matched against a blocklist of phishing domains, either exactly or as a subdomain of an entry.
- **Attachments.** Attachment names are matched, case-sensitively, against ten executable and script extensions.
- **Grammar.** A spelling corrector's output is compared word by word with the body.
- **Urgency.** Thirteen alarm phrases are searched for in the lowercased text.

A fifth lookup, the sender domain, is defined in `main.py` but not called by `main`.

The classifier `main` runs the four checks in that order. It stops at the first one that fires and returns `True` only when none fires. An evaluation routine classifies a labelled dataset, counts true and false positives and negatives, and computes the accuracy. A generator produces that dataset from two fixed domain pools.

The model is made of pure functions over `string` and `seq<string>`, in one module per part of the program:

| module | file | models |
|---|---|---|
| `Text` | text.dfy | Python's `sep in s`, `s.find(sep)`, `s.split(sep)`, `s.endswith(x)`, `sep.join(xs)` and an ASCII `s.lower()` |
| `Blocklist` | blocklist.dfy | `is_suspicious_domain`, `is_suspicious_link` and the host extraction `link.split('//')[-1].split('/')[0]` |
| `Attachments` | attachments.dfy | `has_malicious_attachments` |
| `Grammar` | grammar.dfy | `has_grammar_errors`, with the language tools as uninterpreted functions |
| `Urgency` | urgency.dfy | `contains_urgent_language` |
| `Classifier` | classifier.dfy | `main` and its order of checks |
| `Evaluator` | evaluator.dfy | `evaluate_system` |
| `Dataset` | dataset.dfy | `generate_test_dataset`, with the random choices passed in |

Some things the program reads from outside become parameters:
- The blocklists it reads from text files become `seq<string>` parameters.
- TextBlob's tokenizer and corrector become the two fields of an `Nlp` value.
- The random draws of the generator become a function from sample index to `Draw`.
- The `main` that `evaluate_system` calls becomes a function parameter of `Evaluator.EvaluateSystem`. `Evaluator.MainUnder(cfg)` is `Classifier.Main` under a configuration, and that is what the dataset lemmas pass in.

`contains_urgent_language` takes its parameters as `(email_body, email_subject)` and joins them subject first (main.py:40-41). But `main` passes `(subject, body)` into them (main.py:67). So the text `main` actually has scanned is the lowercased `body + " " + subject`. `Classifier.Fires` reproduces the call as written. `Classifier.UrgencySearchesBodyThenSubject` and `Classifier.JoinOrderMatters` state the consequence.

## Model

| member | source | states |
|---|---|---|
| `Text.Find` | main.py:18 | an index `find` reports is one where the separator occurs |
| `Text.FindSpec` | main.py:18 | `find` reports the leftmost occurrence of the separator, and none exactly when it does not occur; this is the cut `split` makes |
| `Text.Split` | main.py:10 | `split` yields at least one piece, and the first piece is a prefix of the string |
| `Text.SplitJoin` | main.py:18 | `split` loses nothing: joining its pieces with the separator gives back the original string |
| `Text.SplitPiecesFree` | main.py:18 | no piece produced by `split` contains the separator |
| `Text.LastPiece` | main.py:10 | the piece `[-1]` of a split is a suffix of the string: all of it when the separator is absent, otherwise preceded by an occurrence of the separator |
| `Text.FirstPiece` | main.py:18 | the piece `[0]` of a split is the prefix before the leftmost occurrence of the separator, or the whole string when there is none |
| `Text.Lower` | main.py:47 | lowercasing keeps the length, turns each ASCII capital into the matching lower-case letter, and leaves every other character where it was |
| `Text.LowerIdempotent` | main.py:47 | lowercased text has no capital letters and lowercasing it again changes nothing |
| `Blocklist.SenderDomain` | main.py:10 | the sender domain is an `@`-free suffix of the sender, preceded by `@` when the sender has one and the whole sender otherwise |
| `Blocklist.SenderDomainUnique` | main.py:10 | the sender domain is the only string with that description, so it is exactly the text after the last `@` |
| `Blocklist.IsSuspiciousDomain` | main.py:7-11 | the sender is suspicious exactly when some list entry is an `@`-free suffix of the sender that follows an `@` or is the whole sender |
| `Blocklist.SenderDomainOf` | main.py:10 | whatever precedes a final `@d`, the sender domain is `d` |
| `Blocklist.SenderSubdomainNotMatched` | main.py:11 | membership is exact: `user@sub.entry` is not matched by the entry `entry` |
| `Blocklist.Host` | main.py:18 | the host holds no `/`; in a link without `//` it is the text before the first `/` |
| `Blocklist.MatchesEntry` | main.py:21 | a host matches a blocklist entry exactly when it is the entry or ends with the entry right after a `.` |
| `Blocklist.AnyEntryMatches` | main.py:20-23 | the loop over the blocklist returns true exactly when some entry equals the host or is a dot-separated suffix of it |
| `Blocklist.IsSuspiciousLink` | main.py:14-23 | a link is suspicious exactly when its host matches some blocklist entry |
| `Blocklist.HostShape` | main.py:18 | the host holds no `/` and is the prefix up to the first `/` of the last piece `split('//')` makes; that piece is the whole link when there is no `//`, and otherwise a `//`-free suffix that follows an occurrence of `//` |
| `Blocklist.HostOfUrl` | main.py:18 | the host of `scheme//host/path` is `host` when scheme and host contain no `/` |
| `Blocklist.HostAfterLastDoubleSlash` | main.py:18 | with two `//` in a link, the host is taken after the second one |
| `Blocklist.TripleSlashHostIsEmpty` | main.py:18-23 | in `scheme///d/path` the host is empty, so only an empty blocklist entry matches, whatever `d` is |
| `Blocklist.SubdomainMatches` | main.py:21 | every subdomain `sub.entry` of an entry matches it |
| `Blocklist.NoDotNoMatch` | main.py:21 | a longer host without a dot boundary, such as `xevil.com` for `evil.com`, does not match |
| `Blocklist.UrlBlockedIff` | main.py:14-23 | a link `scheme//host/path` is blocked exactly when its host matches an entry |
| `Attachments.EndsWithAny` | main.py:30 | a name is refused exactly when it ends with one of the given extensions |
| `Attachments.HasMaliciousAttachments` | main.py:26-32 | the list is flagged exactly when some attachment ends with some refused extension; an empty list is never flagged |
| `Attachments.RefusedExtensionFlagged` | main.py:28-31 | a file with a refused extension is flagged wherever it sits in the list |
| `Attachments.DecidedByTail` | main.py:30 | for a tail of at least four characters, whether `base + tail` is refused depends only on the tail |
| `Attachments.UpperCaseNotFlagged` | main.py:28-30 | the match is case-sensitive: `name.EXE` is not flagged |
| `Attachments.FlaggedIffSomeFileFlagged` | main.py:29-32 | a list is flagged exactly when one of its files would be flagged on its own |
| `Grammar.CountDiffs` | main.py:37 | the count of differing zipped words is at most both lengths, and zero exactly when the lists agree up to the shorter length |
| `Grammar.CountIsDiffPositions` | main.py:37 | the count equals the number of positions below the shorter length at which the two word lists differ |
| `Grammar.HasGrammarErrors` | main.py:35-38 | the body has grammar errors exactly when more positions differ than the threshold |
| `Grammar.TrailingWordsIgnored` | main.py:37 | `zip` stops at the shorter list: words one list has beyond the other are never counted |
| `Grammar.UncorrectedTextIsClean` | main.py:35-38 | a text the corrector leaves unchanged has no grammar errors for any threshold of at least zero |
| `Grammar.InsertionShiftsEveryWord` | main.py:37 | one word inserted at the front by the corrector makes every position differ when no two neighbouring words are equal |
| `Urgency.AnyPhraseIn` | main.py:47 | the search fires exactly when some phrase occurs in the text |
| `Urgency.ContainsUrgentLanguage` | main.py:40-47 | the check fires exactly when some urgent phrase occurs in the lowercased `email_subject + " " + email_body` |
| `Urgency.CaseInsensitive` | main.py:47 | lowercasing either input first does not change the verdict |
| `Urgency.PhraseInEitherPartFires` | main.py:41-47 | a phrase found in either input, in any ASCII case, makes the check fire |
| `Urgency.CapitalsAreFound` | main.py:47 | `URGENT` in capitals in the body is found |
| `Urgency.GreetingIsNotFlagged` | main.py:40-47 | a greeting with subject `Meeting notes` holds none of the thirteen phrases |
| `Classifier.Fires` | main.py:52-67 | each check fires as its function decides: a blocklist match of the host, a refused extension on some attachment, more than five corrected words, or an urgent phrase in the lowercased `body + " " + subject` |
| `Classifier.FirstFiring` | main.py:52-72 | an ordered list of checks yields no verdict exactly when none fires, and otherwise the first one that fires, all earlier ones silent |
| `Classifier.Classify` | main.py:52-71 | the chain of checks reports nothing exactly when no check fires, and a reason only when that check fires |
| `Classifier.Main` | main.py:50-72 | `main` returns true exactly when the link, attachment, grammar and urgency checks are all false |
| `Classifier.ClassifyIsFirstInOrder` | main.py:52-69 | the chain of `if` statements is the first firing check in the order link, attachments, grammar, urgency |
| `Classifier.ReportedReasonIsFirst` | main.py:52-69 | the reported reason fires and every check before it in the order did not |
| `Classifier.BlockedLinkShortCircuits` | main.py:52-54 | a blocked link decides the verdict whatever the attachments, body and subject |
| `Classifier.AttachmentShortCircuits` | main.py:57-59 | behind a clean link, a refused attachment decides the verdict whatever the body and subject |
| `Classifier.GrammarShortCircuits` | main.py:62-64 | behind a clean link and attachments, grammar errors decide the verdict whatever the subject |
| `Classifier.UrgencySearchesBodyThenSubject` | main.py:67 | through the call with swapped arguments, the urgency check scans the lowercased `body + " " + subject` |
| `Classifier.PhraseAcrossTheJoin` | main.py:41-47 | a phrase can straddle the join: body `act` and subject `now` hold no phrase each, yet the email is flagged for urgency |
| `Classifier.JoinOrderMatters` | main.py:67 | body `now` with subject `act` passes while body `act` with subject `now` is flagged |
| `Evaluator.OutcomeOf` | main.py:80-87 | each combination of verdict and label lands in exactly one of the four cells |
| `Evaluator.Accuracy` | main.py:88 | the accuracy lies between 0 and 1, is 1 exactly when there are no false positives or negatives, and 0 exactly when nothing is right |
| `Evaluator.Count` | main.py:77-87 | a counter never exceeds the number of cases |
| `Evaluator.CountExtremes` | main.py:77-87 | a counter is zero exactly when no case falls into its cell, and equals the number of cases exactly when every case does |
| `Evaluator.CountsCoverEveryCase` | main.py:77-87 | the four counts add up to the number of cases |
| `Evaluator.CountStep` | main.py:77-87 | one more case adds one to its own cell and nothing to the others |
| `Evaluator.EvaluateSystem` | main.py:75-89 | the evaluation raises a division by zero exactly on an empty dataset; otherwise the counters are the per-cell counts, they total the number of cases, and the accuracy is their ratio |
| `Evaluator.NoMissedPhishingNoFalseNegatives` | main.py:86-87 | when every phishing case is flagged, there are no false negatives |
| `Dataset.Decimal` | main.py:108 | the decimal spelling of `n` in `file{n}` has only digits, no leading zero, and reads back as `n` |
| `Dataset.Link` | main.py:117 | for a domain without `/`, the link check reads the domain back as the host of `http://{domain}/path` |
| `Dataset.Sample` | main.py:105-118 | one sample is phishing exactly when its draw is; its link is `http://<domain>/path`; it has one attachment, refused exactly when the sample is phishing; and its body and subject are the fixed texts of its kind |
| `Dataset.GenerateTestDataset` | main.py:91-120 | the dataset has `num_samples` cases (none for a non-positive count); each is labelled phishing exactly when its draw is, links read `http://<domain>/path`, each case has one attachment, refused exactly when the case is phishing, and body and subject are the texts of its kind |
| `Dataset.DomainsComeFromTheirPool` | main.py:106-112 | phishing samples take their domain from the phishing pool and legitimate samples from the legitimate pool |
| `Dataset.GeneratedHostIsDomain` | main.py:117 | the host the link check extracts from a generated link is the drawn domain |
| `Dataset.GeneratedPhishingIsFlagged` | main.py:106-110 | every generated phishing case carries a refused attachment and is flagged |
| `Dataset.GeneratedHasNoFalseNegatives` | main.py:104-118 | on any generated dataset the evaluation counts no false negatives |
| `Dataset.SafeExtensionsAreNotRefused` | main.py:99-100 | no safe extension ends with a refused one |
| `Dataset.GeneratedLegitimateAttachmentIsSafe` | main.py:111-113 | a generated legitimate case never carries a refused attachment |
| `Dataset.LegitimateTextNotUrgent` | main.py:114-115 | the text the urgency check scans for a generated legitimate email holds none of the thirteen phrases |
| `Dataset.GeneratedLegitimateVerdict` | main.py:111-118 | a generated legitimate case is flagged exactly when its domain matches a blocklist entry or the corrector changes more than five of its words |
| `Dataset.BlockedGeneratedLinkReported` | main.py:117 | a generated link whose domain is on the blocklist is reported as a suspicious link whatever else the email holds |
| `Dataset.KelpiesLinkReported` | main.py:93 | the generated link `http://thekelpiesfamily.io/path` (`Dataset.Link` of the domain) is rejected by `main` once its domain is on the blocklist |
| `Dataset.CleanEmailPasses` | main.py:50-72 | the generated link `http://google.com/path`, the attachment `report.pdf` and the legitimate body pass every check when the blocklist does not match `google.com` and the corrector changes at most five words |

## Left out

- Reading the blocklist files (main.py:8-9, 15-16): the lists are parameters. A missing file, which raises in main.py, is not modelled.
- TextBlob and nltk (main.py:1-3, 36-37): tokenizing and spelling correction are the uninterpreted functions `Nlp.words` and `Nlp.correct`. Only the index-aligned counting rule is modelled.
- The `print` calls in `main` (main.py:53-71): `Classifier.Classify` returns the reason that would be printed, and `Classifier.Main` returns the boolean.
- The module-level script (main.py:123-130) that generates, prints and evaluates a dataset, and the formatting of the accuracy to two decimals.
- The random source of `generate_test_dataset` (main.py:105-113): each sample's choices are an input `Draw` with indices bounded by the pool sizes.
- Text.Lower: only ASCII `A`-`Z` are lowercased. Python's `str.lower()` also lowercases other Unicode letters.
- Evaluator.Accuracy: the accuracy is an exact `real`, not a floating-point value.
- `str.split` with an empty separator raises in Python. `Text.Split` requires a non-empty separator, because `main.py` only splits on `@`, `//` and `/`.
- `generate_test_dataset` defines its own copy of the ten refused extensions (main.py:99). It equals the list of `has_malicious_attachments` (main.py:28), so the model defines the list once as `Attachments.MaliciousExtensions`.
- Dataset.GenerateTestDataset: its contract says of each attachment name only whether the attachment check refuses it. The digits of `file<n>` are not stated.
- The default `num_samples=20` (main.py:91): `Dataset.GenerateTestDataset` always takes the count as an argument.
- Blocklist.Host: its own contract covers only the absence of `/` and links without `//`. `Blocklist.HostShape`, `Blocklist.HostOfUrl`, `Blocklist.HostAfterLastDoubleSlash` and `Blocklist.TripleSlashHostIsEmpty` state where the host lies in a link holding `//`.
- Blocklist.HostShape: for a run of three or more slashes, its contract does not say which `//` of the run is the cut. `split` decides that by scanning from the left, as `Text.Split` does. `Blocklist.TripleSlashHostIsEmpty` works out the run `///`.
- Text.Split: its own contract states only that there is a piece and where the first one lies. `Text.SplitJoin`, `Text.SplitPiecesFree`, `Text.FirstPiece` and `Text.LastPiece` state what the pieces are.
- Text.Find: its own contract states only that a reported index is an occurrence. `Text.FindSpec` states that it is the leftmost one, and that nothing is reported only when there is no occurrence.
- Evaluator.Count: its own contract only bounds the counter. `Evaluator.CountExtremes` and `Evaluator.CountsCoverEveryCase` state how counters relate to the cases.
