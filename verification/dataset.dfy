/**
  The synthetic dataset of main.py (`generate_test_dataset`). main.py draws
  its choices from an unseeded random generator; here the draws are an input,
  one `Draw` per sample, so the shape of every generated case can be stated.
 */
module Dataset {
  import opened Text
  import opened Blocklist
  import opened Attachments
  import opened Grammar
  import opened Urgency
  import opened Classifier
  import opened Evaluator

  const PhishingDomains: seq<string> := [
    "thekelpiesfamily.io", "thekendallalexandercollection.com", "thekindergarten.com.au",
    "thelabbasketballtraining.com", "thelabron.com", "thelamtheabus.000webhostapp.com"
  ]

  const LegitimateDomains: seq<string> := [
    "google.com", "amazon.com", "duk.ac.in", "iitmk.ac.in", "stc.ac.in", "gmail.com"
  ]

  const SafeExtensions: seq<string> := [".pdf", ".docx", ".xlsx", ".txt", ".jpg"]

  /** The fixed texts of the two kinds of sample. */
  const PhishingBody := "This is a phishing email body with some grammar errors."
  const PhishingSubject := "Urgent: Action Required"
  const LegitimateBody := "This is a legitimate" + " email body with" + " correct grammar."
  const LegitimateSubject := "Hello"

  /** An index into one of the two six-domain pools. */
  type PoolIndex = i: nat | i < 6

  /** `random.randint(1, 100)`: both ends included. */
  type FileNumber = n: int | 1 <= n <= 100 witness 1

  /** An index into the ten refused extensions. */
  type MaliciousIndex = i: nat | i < 10

  /** An index into the five safe extensions. */
  type SafeIndex = i: nat | i < 5

  /** The random choices made for one sample, after the label has been drawn. */
  datatype Draw =
    | PhishingDraw(phishingDomain: PoolIndex, phishingFile: FileNumber, maliciousExtension: MaliciousIndex)
    | LegitimateDraw(legitimateDomain: PoolIndex, legitimateFile: FileNumber, safeExtension: SafeIndex)

  /** The number a string of decimal digits denotes. */
  function DigitsValue(s: string): int
  {
    if |s| == 0 then 0 else DigitsValue(s[..|s| - 1]) * 10 + (s[|s| - 1] as int - '0' as int)
  }

  /**
    The decimal digits of `n`, as an f-string prints it: digits only, no
    leading zero, and reading them back gives `n`.
   */
  function Decimal(n: nat): (r: string)
    ensures |r| > 0 && (|r| > 1 ==> r[0] != '0')
    ensures forall i | 0 <= i < |r| :: '0' <= r[i] <= '9'
    ensures DigitsValue(r) == n
  {
    if n < 10 then ["0123456789"[n]]
    else
      var front := Decimal(n / 10);
      var r := front + ["0123456789"[n % 10]];
      assert r[..|r| - 1] == front;
      r
  }

  /** The domain a draw picks. */
  function DomainOf(d: Draw): string
  {
    match d
    case PhishingDraw(k, _, _) => PhishingDomains[k]
    case LegitimateDraw(k, _, _) => LegitimateDomains[k]
  }

  /**
    The link built for a domain: `f"http://{domain}/path"`. For a domain
    without `/`, the link check reads the domain back as the host.
   */
  function Link(domain: string): (r: string)
    ensures '/' !in domain ==> Host(r) == domain
  {
    var r := "http://" + domain + "/path";
    assert r == "http:" + "//" + domain + "/path";
    if '/' in domain then r
    else
      PathIsPath();
      HostOfUrl("http:", domain, "/path");
      r
  }

  /**
    One generated test case: `(link, attachments, body, subject, is_phishing)`.
    A phishing case carries one refused attachment and the phishing texts; a
    legitimate case carries one attachment the check accepts and the legitimate texts.
   */
  function Sample(d: Draw): (c: TestCase)
    ensures c.isPhishing <==> d.PhishingDraw?
    ensures c.link == Link(DomainOf(d))
    ensures |c.attachments| == 1
    ensures HasMaliciousAttachments(c.attachments) <==> c.isPhishing
    ensures c.isPhishing ==> c.body == PhishingBody && c.subject == PhishingSubject
    ensures !c.isPhishing ==> c.body == LegitimateBody && c.subject == LegitimateSubject
  {
    var link := Link(DomainOf(d));
    match d
    case PhishingDraw(_, n, e) =>
      var base := "file" + Decimal(n);
      RefusedExtensionFlagged([], base, e, []);
      assert [] + [base + MaliciousExtensions[e]] + [] == [base + MaliciousExtensions[e]];
      TestCase(link, [base + MaliciousExtensions[e]], PhishingBody, PhishingSubject, true)
    case LegitimateDraw(_, n, e) =>
      var base := "file" + Decimal(n);
      SafeExtensionsAreNotRefused(e);
      DecidedByTail(base, SafeExtensions[e]);
      TestCase(link, [base + SafeExtensions[e]], LegitimateBody, LegitimateSubject, false)
  }

  /** `generate_test_dataset(num_samples)`, with sample `i` built from `draws(i)`. */
  function GenerateTestDataset(numSamples: int, draws: nat -> Draw): (cases: seq<TestCase>)
    ensures |cases| == if numSamples < 0 then 0 else numSamples
    ensures forall i | 0 <= i < |cases| :: cases[i].isPhishing <==> draws(i).PhishingDraw?
    ensures forall i | 0 <= i < |cases| :: cases[i].link == "http://" + DomainOf(draws(i)) + "/path"
    ensures forall i | 0 <= i < |cases| :: |cases[i].attachments| == 1
    ensures forall i | 0 <= i < |cases| :: HasMaliciousAttachments(cases[i].attachments) <==> cases[i].isPhishing
    ensures forall i | 0 <= i < |cases| :: cases[i].isPhishing ==>
              cases[i].body == PhishingBody && cases[i].subject == PhishingSubject
    ensures forall i | 0 <= i < |cases| :: !cases[i].isPhishing ==>
              cases[i].body == LegitimateBody && cases[i].subject == LegitimateSubject
  {
    if numSamples <= 0 then []
    else seq(numSamples, (i: int) requires 0 <= i < numSamples => Sample(draws(i)))
  }

  /** Phishing samples take their domain from the phishing pool, the others from the legitimate pool. */
  lemma DomainsComeFromTheirPool(d: Draw)
    ensures d.PhishingDraw? ==> DomainOf(d) in PhishingDomains
    ensures d.LegitimateDraw? ==> DomainOf(d) in LegitimateDomains
  {
  }

  /** No domain of either pool contains `/`. */
  lemma DomainsHaveNoSlash(d: Draw)
    ensures '/' !in DomainOf(d)
  {
    match d
    case PhishingDraw(k, _, _) =>
      assert forall j | 0 <= j < 6 :: '/' !in PhishingDomains[j];
    case LegitimateDraw(k, _, _) =>
      assert forall j | 0 <= j < 6 :: '/' !in LegitimateDomains[j];
  }

  /** The generated path `/path` is a path: it starts with `/` and has no `//`. */
  lemma PathIsPath()
    ensures IsPath("/path")
  {
    forall i | OccursAt("/path", "//", i) ensures false {
      CharOfOccurrence("/path", "//", i, 0);
      CharOfOccurrence("/path", "//", i, 1);
    }
  }

  /** The host the link check sees in a generated link is the drawn domain. */
  lemma GeneratedHostIsDomain(d: Draw)
    ensures Host(Sample(d).link) == DomainOf(d)
  {
    DomainsHaveNoSlash(d);
    PathIsPath();
    SampleLink(d);
    HostOfUrl("http:", DomainOf(d), "/path");
  }

  lemma SampleLink(d: Draw)
    ensures Sample(d).link == "http:" + "//" + DomainOf(d) + "/path"
    ensures '/' !in "http:"
  {
    assert "http://" == "http:" + "//";
  }

  /** A generated phishing case always carries a refused attachment, so it is always flagged. */
  lemma GeneratedPhishingIsFlagged(cfg: Config, d: Draw)
    requires d.PhishingDraw?
    ensures HasMaliciousAttachments(Sample(d).attachments)
    ensures Flagged(MainUnder(cfg), Sample(d))
  {
  }

  /** On any generated dataset the evaluation finds no false negatives. */
  lemma GeneratedHasNoFalseNegatives(cfg: Config, numSamples: int, draws: nat -> Draw)
    ensures Count(MainUnder(cfg), GenerateTestDataset(numSamples, draws), FalseNegative) == 0
  {
    var cases := GenerateTestDataset(numSamples, draws);
    forall i | 0 <= i < |cases| && cases[i].isPhishing ensures Flagged(MainUnder(cfg), cases[i]) {
      assert cases[i] == Sample(draws(i));
      GeneratedPhishingIsFlagged(cfg, draws(i));
    }
    NoMissedPhishingNoFalseNegatives(MainUnder(cfg), cases);
  }

  /** No safe extension ends with a refused one. */
  lemma SafeExtensionsAreNotRefused(e: SafeIndex)
    ensures !EndsWithAny(SafeExtensions[e], MaliciousExtensions)
    ensures |SafeExtensions[e]| >= 4
  {
    var x := SafeExtensions[e];
    forall k | 0 <= k < |MaliciousExtensions| ensures !EndsWith(x, MaliciousExtensions[k]) {
      var m := MaliciousExtensions[k];
      assert x[|x| - 1] != m[|m| - 1] || x[|x| - 2] != m[|m| - 2];
    }
  }

  /** A generated legitimate case never carries a refused attachment. */
  lemma GeneratedLegitimateAttachmentIsSafe(d: Draw)
    requires d.LegitimateDraw?
    ensures !HasMaliciousAttachments(Sample(d).attachments)
  {
    SafeExtensionsAreNotRefused(d.safeExtension);
    DecidedByTail("file" + Decimal(d.legitimateFile), SafeExtensions[d.safeExtension]);
  }

  /** The lowercased text `main` scans for urgency in a legitimate generated email, in three pieces. */
  const ScannedA := "this is a legitimate"
  const ScannedB := " email body with"
  const ScannedC := " correct grammar. hello"

  /** `main` joins body and subject; lowercased, that is the three pieces above. */
  lemma LegitimateScannedText()
    ensures Lower(LegitimateBody + " " + LegitimateSubject) == ScannedA + ScannedB + ScannedC
  {
    var a, b, c, e := "This is a legitimate", " email body with", " correct grammar.", " Hello";
    assert LegitimateBody + " " + LegitimateSubject == a + b + c + e;
    LowerAppend(a + b + c, e);
    LowerAppend(a + b, c);
    LowerAppend(a, b);
    LowerA();
    LowerB();
    LowerC();
    assert ScannedC == " correct grammar." + " hello";
  }

  lemma LowerA()
    ensures Lower("This is a legitimate") == ScannedA
  {
  }

  lemma LowerB()
    ensures Lower(" email body with") == ScannedB
  {
  }

  lemma LowerC()
    ensures Lower(" correct grammar.") == " correct grammar."
    ensures Lower(" Hello") == " hello"
  {
  }

  lemma AbsentLettersA()
    ensures forall c | c in "nuqfd" :: c !in ScannedA
  {
  }

  lemma AbsentLettersB()
    ensures forall c | c in "nuqf" :: c !in ScannedB
    ensures ScannedB[..9] == " email bo" && ScannedB[9] == 'd' && ScannedB[10..] == "y with"
  {
  }

  lemma AbsentLettersC()
    ensures forall c | c in "nuqfd" :: c !in ScannedC
  {
  }

  /** No urgent phrase occurs in the scanned text of a legitimate generated email. */
  lemma NoPhraseInLegitimateText(k: nat)
    requires k < |UrgentPhrases|
    ensures !Occurs(ScannedA + ScannedB + ScannedC, UrgentPhrases[k])
  {
    var s := ScannedA + ScannedB + ScannedC;
    var p := UrgentPhrases[k];
    AbsentLettersA();
    AbsentLettersB();
    AbsentLettersC();
    if k == 1 {
      NoLimitedTimeInLegitimateText();
    } else {
      var c := if k == 3 || k == 6 || k == 9 then 'u' else if k == 4 then 'q' else if k == 10 then 'f' else 'n';
      assert c in "nuqf";
      LacksChar(s, p, c);
    }
  }

  /** `limited time` is absent: its `d` can only be the one in `body`, and no `l` stands six before it. */
  lemma NoLimitedTimeInLegitimateText()
    ensures !Occurs(ScannedA + ScannedB + ScannedC, UrgentPhrases[1])
  {
    var s := ScannedA + ScannedB + ScannedC;
    var p := UrgentPhrases[1];
    AbsentLettersA();
    AbsentLettersB();
    AbsentLettersC();
    forall i | OccursAt(s, p, i) ensures false {
      CharOfOccurrence(s, p, i, 6);
      OnlyAt(ScannedA, ScannedB, ScannedC, 'd', 9, i + 6);
      CharOfOccurrence(s, p, i, 0);
    }
  }

  /** The urgency check, called as `main` calls it, stays silent on a legitimate generated email. */
  lemma LegitimateTextNotUrgent()
    ensures !ContainsUrgentLanguage(LegitimateSubject, LegitimateBody)
  {
    LegitimateScannedText();
    forall k | 0 <= k < |UrgentPhrases| ensures !Occurs(ScannedA + ScannedB + ScannedC, UrgentPhrases[k]) {
      NoPhraseInLegitimateText(k);
    }
  }

  /**
    A generated legitimate case is flagged exactly when its domain matches a
    blocklist entry or the corrector changes more than five of its words.
   */
  lemma GeneratedLegitimateVerdict(cfg: Config, d: Draw)
    requires d.LegitimateDraw?
    ensures Flagged(MainUnder(cfg), Sample(d))
        <==> (exists k | 0 <= k < |cfg.linkBlocklist| :: MatchesEntry(DomainOf(d), cfg.linkBlocklist[k]))
             || HasGrammarErrors(cfg.nlp, LegitimateBody, DefaultThreshold)
  {
    GeneratedHostIsDomain(d);
    GeneratedLegitimateAttachmentIsSafe(d);
    LegitimateTextNotUrgent();
  }

  /** A generated link whose domain is blocked is reported as a suspicious link, whatever else the email holds. */
  lemma BlockedGeneratedLinkReported(cfg: Config, d: Draw, attachments: seq<string>, body: string, subject: string)
    requires DomainOf(d) in cfg.linkBlocklist
    ensures Classify(cfg, Email(Sample(d).link, attachments, body, subject)) == Suspicious(SuspiciousLink)
  {
    GeneratedHostIsDomain(d);
    var k :| 0 <= k < |cfg.linkBlocklist| && cfg.linkBlocklist[k] == DomainOf(d);
    assert MatchesEntry(Host(Sample(d).link), cfg.linkBlocklist[k]);
  }

  /** The generated link to `thekelpiesfamily.io` (`http://thekelpiesfamily.io/path`) is reported once its domain is on the blocklist. */
  lemma KelpiesLinkReported(cfg: Config, attachments: seq<string>, body: string, subject: string)
    requires "thekelpiesfamily.io" in cfg.linkBlocklist
    ensures !Main(cfg, Link("thekelpiesfamily.io"), attachments, body, subject)
  {
    var d := PhishingDraw(0, 1, 0);
    assert DomainOf(d) == "thekelpiesfamily.io";
    BlockedGeneratedLinkReported(cfg, d, attachments, body, subject);
  }

  /**
    A legitimate email with a clean link to `google.com`, a PDF report and the
    legitimate body passes every check when the corrector changes at most five words.
   */
  lemma CleanEmailPasses(cfg: Config)
    requires forall k | 0 <= k < |cfg.linkBlocklist| :: !MatchesEntry("google.com", cfg.linkBlocklist[k])
    requires !HasGrammarErrors(cfg.nlp, LegitimateBody, DefaultThreshold)
    ensures Main(cfg, Link("google.com"), ["report.pdf"], LegitimateBody, "Hello")
  {
    DomainsHaveNoSlash(LegitimateDraw(0, 1, 0));
    assert LegitimateDomains[0] == "google.com";
    ReportIsSafe();
    LegitimateTextNotUrgent();
  }

  lemma ReportIsSafe()
    ensures !HasMaliciousAttachments(["report.pdf"])
  {
    assert "report.pdf" == "report" + SafeExtensions[0];
    SafeExtensionsAreNotRefused(0);
    DecidedByTail("report", SafeExtensions[0]);
  }
}
