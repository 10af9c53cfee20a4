/**
  The urgency check of main.py (`contains_urgent_language`): a substring search
  for fixed alarm phrases in the lowercased text `subject + " " + body`.
 */
module Urgency {
  import opened Text

  /** The thirteen phrases the check looks for, all lower case. */
  const UrgentPhrases: seq<string> := [
    "act now", "limited time", "important", "hurry", "quickly", "soon",
    "serious legal action", "respond within 24 hours", "immediate action required",
    "urgent", "failure to respond", "important notice", "last warning"
  ]

  /** `any(phrase in text for phrase in phrases)`. */
  function AnyPhraseIn(text: string, phrases: seq<string>): (r: bool)
    ensures r <==> exists k | 0 <= k < |phrases| :: Occurs(text, phrases[k])
  {
    if |phrases| == 0 then false
    else if Occurs(text, phrases[0]) then true
    else
      assert forall k | 1 <= k < |phrases| :: phrases[k] == phrases[1..][k - 1];
      AnyPhraseIn(text, phrases[1..])
  }

  /**
    `contains_urgent_language(email_body, email_subject)`: the parameters come
    body first, and the text searched is the subject, one space, then the body.
   */
  function ContainsUrgentLanguage(emailBody: string, emailSubject: string): (r: bool)
    ensures r <==> exists k | 0 <= k < |UrgentPhrases| ::
                     Occurs(Lower(emailSubject + " " + emailBody), UrgentPhrases[k])
  {
    AnyPhraseIn(Lower(emailSubject + " " + emailBody), UrgentPhrases)
  }

  /** The search ignores ASCII case: lowercasing the inputs first changes nothing. */
  lemma CaseInsensitive(emailBody: string, emailSubject: string)
    ensures ContainsUrgentLanguage(Lower(emailBody), Lower(emailSubject))
         == ContainsUrgentLanguage(emailBody, emailSubject)
  {
    LowerAppend(emailSubject + " ", emailBody);
    LowerAppend(emailSubject, " ");
    LowerAppend(Lower(emailSubject) + " ", Lower(emailBody));
    LowerAppend(Lower(emailSubject), " ");
    LowerIdempotent(emailSubject);
    LowerIdempotent(emailBody);
    assert Lower(" ") == " ";
  }

  /** A phrase found in either input, in any case, makes the check fire. */
  lemma PhraseInEitherPartFires(emailBody: string, emailSubject: string, k: nat)
    requires k < |UrgentPhrases|
    requires Occurs(Lower(emailBody), UrgentPhrases[k]) || Occurs(Lower(emailSubject), UrgentPhrases[k])
    ensures ContainsUrgentLanguage(emailBody, emailSubject)
  {
    LowerAppend(emailSubject + " ", emailBody);
    LowerAppend(emailSubject, " ");
    OccursInAppend(Lower(emailSubject) + Lower(" "), Lower(emailBody), UrgentPhrases[k]);
    OccursInAppend(Lower(emailSubject), Lower(" "), UrgentPhrases[k]);
    OccursInAppend(Lower(emailSubject) + Lower(" "), Lower(emailBody), UrgentPhrases[k]);
  }

  /** A worked case: `URGENT` in capital letters in the body is found. */
  lemma CapitalsAreFound()
    ensures ContainsUrgentLanguage("URGENT action needed", "")
  {
    assert Lower("URGENT action needed") == "urgent action needed";
    assert OccursAt("urgent action needed", UrgentPhrases[9], 0);
    PhraseInEitherPartFires("URGENT action needed", "", 9);
  }

  /** A worked case: a plain greeting with subject `Meeting notes` is not flagged. */
  lemma GreetingIsNotFlagged()
    ensures !ContainsUrgentLanguage("Hello", "Meeting notes")
  {
    assert Lower("Meeting notes" + " " + "Hello") == "meeting notes hello";
    forall k | 0 <= k < |UrgentPhrases| ensures !Occurs("meeting notes hello", UrgentPhrases[k]) {
      NoPhraseInGreeting(k);
    }
  }

  lemma NoPhraseInGreeting(k: nat)
    requires k < |UrgentPhrases|
    ensures !Occurs("meeting notes hello", UrgentPhrases[k])
  {
    var s := "meeting notes hello";
    var p := UrgentPhrases[k];
    if k == 5 {
      assert p == "soon";
      forall i | OccursAt(s, p, i) ensures false {
        CharOfOccurrence(s, p, i, 0);
        CharOfOccurrence(s, p, i, 1);
      }
    } else if |p| <= |s| {
      assert k in {0, 1, 2, 3, 4, 9, 10, 11, 12};
      var c := if k in {0, 12} then 'a' else if k == 1 then 'd' else if k in {2, 11} then 'p'
               else if k == 3 || k == 9 then 'u' else if k == 4 then 'q' else 'f';
      LacksChar(s, p, c);
    }
  }

  /** A phrase holding a character the text lacks does not occur in it. */
  lemma LacksChar(s: string, p: string, c: char)
    requires c in p && c !in s
    ensures !Occurs(s, p)
  {
    var j :| 0 <= j < |p| && p[j] == c;
    MissingCharNotOccurs(s, p, j);
  }
}
