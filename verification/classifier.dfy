/**
  The classifier `main` of main.py: four checks run in a fixed order (link,
  attachments, grammar, urgency) and the first one that fires decides the
  verdict; `main` returns true only for an email no check flags.
 */
module Classifier {
  import opened Text
  import opened Blocklist
  import opened Attachments
  import opened Grammar
  import opened Urgency

  /** Why an email was flagged, one value per check, in the order they run. */
  datatype Reason = SuspiciousLink | MaliciousAttachment | GrammarErrors | UrgentLanguage

  /** The classifier's decision; main.py prints the reason and returns a boolean. */
  datatype Verdict = Suspicious(reason: Reason) | NotSuspicious

  /** The four inputs of `main`. */
  datatype Email = Email(link: string, attachments: seq<string>, body: string, subject: string)

  /** What the checks depend on besides the email: the link blocklist and the language tools. */
  datatype Config = Config(linkBlocklist: seq<string>, nlp: Nlp)

  /** Whether the check for `reason` fires on `e`, as `main` calls it. */
  function Fires(cfg: Config, e: Email, reason: Reason): (r: bool)
    ensures reason == SuspiciousLink ==>
      (r <==> exists k | 0 <= k < |cfg.linkBlocklist| :: MatchesEntry(Host(e.link), cfg.linkBlocklist[k]))
    ensures reason == MaliciousAttachment ==>
      (r <==> exists i, k | 0 <= i < |e.attachments| && 0 <= k < |MaliciousExtensions| ::
                EndsWith(e.attachments[i], MaliciousExtensions[k]))
    ensures reason == GrammarErrors ==>
      (r <==> |DiffPositions(cfg.nlp.words(e.body), cfg.nlp.words(cfg.nlp.correct(e.body)))| > DefaultThreshold)
    ensures reason == UrgentLanguage ==>
      (r <==> exists k | 0 <= k < |UrgentPhrases| :: Occurs(Lower(e.body + " " + e.subject), UrgentPhrases[k]))
  {
    match reason
    case SuspiciousLink => IsSuspiciousLink(e.link, cfg.linkBlocklist)
    case MaliciousAttachment => HasMaliciousAttachments(e.attachments)
    case GrammarErrors => HasGrammarErrors(cfg.nlp, e.body, DefaultThreshold)
    // main.py passes (subject, body) to parameters named (email_body, email_subject).
    case UrgentLanguage => ContainsUrgentLanguage(e.subject, e.body)
  }

  /** The fixed order in which `main` runs the checks. */
  const CheckOrder: seq<Reason> := [SuspiciousLink, MaliciousAttachment, GrammarErrors, UrgentLanguage]

  /**
    The first reason in `order` for which `fires` holds, or `NotSuspicious`.
    `fires` stands for the checks of one email (`Fires(cfg, e, _)`).
   */
  function FirstFiring(fires: Reason -> bool, order: seq<Reason>): (v: Verdict)
    ensures v.NotSuspicious? <==> forall k | 0 <= k < |order| :: !fires(order[k])
    ensures v.Suspicious? ==> exists k | 0 <= k < |order| ::
      order[k] == v.reason && fires(order[k]) && forall m | 0 <= m < k :: !fires(order[m])
  {
    if |order| == 0 then NotSuspicious
    else if fires(order[0]) then Suspicious(order[0])
    else
      var v := FirstFiring(fires, order[1..]);
      assert forall k | 1 <= k < |order| :: order[k] == order[1..][k - 1];
      if v.Suspicious? then
        var k :| 0 <= k < |order[1..]| && order[1..][k] == v.reason && fires(order[1..][k])
                 && forall m | 0 <= m < k :: !fires(order[1..][m]);
        assert forall m | 0 <= m < k + 1 :: !fires(order[m]) by {
          forall m | 0 <= m < k + 1 ensures !fires(order[m]) {
            if m > 0 { assert order[m] == order[1..][m - 1]; }
          }
        }
        v
      else
        v
  }

  /** The chain of `if` statements of `main`, with the reason each one prints. */
  function Classify(cfg: Config, e: Email): (v: Verdict)
    ensures v.NotSuspicious? <==> forall r: Reason :: !Fires(cfg, e, r)
    ensures v.Suspicious? ==> Fires(cfg, e, v.reason)
  {
    if Fires(cfg, e, SuspiciousLink) then Suspicious(SuspiciousLink)
    else if Fires(cfg, e, MaliciousAttachment) then Suspicious(MaliciousAttachment)
    else if Fires(cfg, e, GrammarErrors) then Suspicious(GrammarErrors)
    else if Fires(cfg, e, UrgentLanguage) then Suspicious(UrgentLanguage)
    else NotSuspicious
  }

  /** `main(link, attachments, body, subject)`: true exactly when no check fires. */
  function Main(cfg: Config, link: string, attachments: seq<string>, body: string, subject: string): (r: bool)
    ensures r <==> && !IsSuspiciousLink(link, cfg.linkBlocklist)
                   && !HasMaliciousAttachments(attachments)
                   && !HasGrammarErrors(cfg.nlp, body, DefaultThreshold)
                   && !ContainsUrgentLanguage(subject, body)
  {
    var v := Classify(cfg, Email(link, attachments, body, subject));
    assert v.NotSuspicious? ==> !Fires(cfg, Email(link, attachments, body, subject), UrgentLanguage);
    v.NotSuspicious?
  }

  /** The chain of `if` statements is the ordered list of checks, first firing wins. */
  lemma ClassifyIsFirstInOrder(cfg: Config, e: Email)
    ensures Classify(cfg, e) == FirstFiring(r => Fires(cfg, e, r), CheckOrder)
  {
    var f := r => Fires(cfg, e, r);
    var o := CheckOrder;
    assert o[1..] == [MaliciousAttachment, GrammarErrors, UrgentLanguage];
    assert o[1..][1..] == [GrammarErrors, UrgentLanguage];
    assert o[1..][1..][1..] == [UrgentLanguage];
    assert o[1..][1..][1..][1..] == [];
    if !f(SuspiciousLink) {
      assert FirstFiring(f, o) == FirstFiring(f, o[1..]);
      if !f(MaliciousAttachment) {
        assert FirstFiring(f, o[1..]) == FirstFiring(f, o[1..][1..]);
        if !f(GrammarErrors) {
          assert FirstFiring(f, o[1..][1..]) == FirstFiring(f, o[1..][1..][1..]);
        }
      }
    }
  }

  /** The reported reason is the first check in order that fires; all earlier ones did not. */
  lemma ReportedReasonIsFirst(cfg: Config, e: Email, k: nat)
    requires k < |CheckOrder| && Classify(cfg, e) == Suspicious(CheckOrder[k])
    ensures Fires(cfg, e, CheckOrder[k])
    ensures forall m | 0 <= m < k :: !Fires(cfg, e, CheckOrder[m])
  {
    assert CheckOrder[0] == SuspiciousLink && CheckOrder[1] == MaliciousAttachment;
    assert CheckOrder[2] == GrammarErrors && CheckOrder[3] == UrgentLanguage;
  }

  /**
    Once a check fires, the inputs only later checks read do not matter: a
    blocked link decides the verdict whatever the attachments, body and subject.
   */
  lemma BlockedLinkShortCircuits(cfg: Config, e1: Email, e2: Email)
    requires e1.link == e2.link && IsSuspiciousLink(e1.link, cfg.linkBlocklist)
    ensures Classify(cfg, e1) == Classify(cfg, e2) == Suspicious(SuspiciousLink)
    ensures !Main(cfg, e2.link, e2.attachments, e2.body, e2.subject)
  {
  }

  /** A malicious attachment behind a clean link decides the verdict whatever the body and subject. */
  lemma AttachmentShortCircuits(cfg: Config, e1: Email, e2: Email)
    requires e1.link == e2.link && e1.attachments == e2.attachments
    requires !IsSuspiciousLink(e1.link, cfg.linkBlocklist) && HasMaliciousAttachments(e1.attachments)
    ensures Classify(cfg, e1) == Classify(cfg, e2) == Suspicious(MaliciousAttachment)
  {
  }

  /** Grammar errors behind a clean link and attachments decide the verdict whatever the subject. */
  lemma GrammarShortCircuits(cfg: Config, e1: Email, e2: Email)
    requires e1.link == e2.link && e1.attachments == e2.attachments && e1.body == e2.body
    requires !IsSuspiciousLink(e1.link, cfg.linkBlocklist) && !HasMaliciousAttachments(e1.attachments)
    requires HasGrammarErrors(cfg.nlp, e1.body, DefaultThreshold)
    ensures Classify(cfg, e1) == Classify(cfg, e2) == Suspicious(GrammarErrors)
  {
  }

  /**
    Because of the swapped arguments at the call, the urgency check of `main`
    searches the body first, then one space, then the subject.
   */
  lemma UrgencySearchesBodyThenSubject(cfg: Config, e: Email)
    ensures Fires(cfg, e, UrgentLanguage)
        <==> exists k | 0 <= k < |UrgentPhrases| :: Occurs(Lower(e.body + " " + e.subject), UrgentPhrases[k])
  {
  }

  /**
    A phrase can straddle the join: with body `act` and subject `now`, neither
    part holds a phrase, yet `main` flags the email for urgent language.
   */
  lemma PhraseAcrossTheJoin(cfg: Config)
    requires !IsSuspiciousLink("", cfg.linkBlocklist)
    requires !HasGrammarErrors(cfg.nlp, "act", DefaultThreshold)
    ensures forall k | 0 <= k < |UrgentPhrases| :: !Occurs(Lower("act"), UrgentPhrases[k]) && !Occurs(Lower("now"), UrgentPhrases[k])
    ensures Classify(cfg, Email("", [], "act", "now")) == Suspicious(UrgentLanguage)
  {
    assert Lower("act" + " " + "now") == "act now";
    assert OccursAt("act now", UrgentPhrases[0], 0);
  }

  /**
    The order of the join matters: subject `act` with body `now` is searched as
    `now act` and is not flagged, although `act now` would be.
   */
  lemma JoinOrderMatters(cfg: Config)
    requires !IsSuspiciousLink("", cfg.linkBlocklist)
    requires !HasGrammarErrors(cfg.nlp, "act", DefaultThreshold)
    requires !HasGrammarErrors(cfg.nlp, "now", DefaultThreshold)
    ensures Main(cfg, "", [], "now", "act")
    ensures !Main(cfg, "", [], "act", "now")
  {
    assert Lower("now" + " " + "act") == "now act";
    forall k | 0 <= k < |UrgentPhrases| ensures !Occurs("now act", UrgentPhrases[k]) {
      NoPhraseInNowAct(k);
    }
    PhraseAcrossTheJoin(cfg);
  }

  lemma NoPhraseInNowAct(k: nat)
    requires k < |UrgentPhrases|
    ensures !Occurs("now act", UrgentPhrases[k])
  {
    var s := "now act";
    if k == 0 {
      forall i | OccursAt(s, UrgentPhrases[0], i) ensures false {
        CharOfOccurrence(s, UrgentPhrases[0], i, 0);
      }
    } else if k == 3 {
      MissingCharNotOccurs(s, UrgentPhrases[3], 0);
    } else if k == 4 {
      MissingCharNotOccurs(s, UrgentPhrases[4], 0);
    } else if k == 5 {
      MissingCharNotOccurs(s, UrgentPhrases[5], 0);
    } else if k == 9 {
      MissingCharNotOccurs(s, UrgentPhrases[9], 0);
    }
  }
}
