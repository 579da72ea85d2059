/**
 * The two fixed vocabularies of the alert parser and their substring tests:
 * the noise blacklist applied to plain-text lines and the subject whitelist
 * that admits an email for parsing. Both tests are case-sensitive and do not
 * normalise their argument.
 */
module Filters {
  import opened PyStr

  /** Boilerplate fragments of an alert email (save, share, social and footer links). */
  const Blacklist: seq<string> := [
    "Save", "email_library_add", "scholar_share",
    "cancel_alert", "Facebook", "Twitter",
    "This alert is sent by Google Scholar", "Cancel alert"
  ]

  /** Subject fragments of the alerts worth parsing, in English and German. */
  const SubjectWhitelist: seq<string> := [
    "new citations", "new results", "neue Zitate",
    "new related research", "neue Ergebnisse",
    "new articles", "new citation", "neue Zitationen",
    "neue Zitation", "neue_Ergebnisse", "neue_Zitationen"
  ]

  /** `check_blacklist`: true exactly when one of the eight noise strings occurs in `s`. */
  predicate CheckBlacklist(s: string)
    ensures CheckBlacklist(s) <==> exists k :: 0 <= k < |Blacklist| && Contains(s, Blacklist[k])
  {
    ContainsAny(s, Blacklist)
  }

  /** `check_subject_whitelist`: true exactly when one of the eleven subject fragments occurs in `s`. */
  predicate CheckSubjectWhitelist(s: string)
    ensures CheckSubjectWhitelist(s) <==> exists k :: 0 <= k < |SubjectWhitelist| && Contains(s, SubjectWhitelist[k])
  {
    ContainsAny(s, SubjectWhitelist)
  }

  /** The empty line is never noise. */
  lemma EmptyNotBlacklisted()
    ensures !CheckBlacklist("")
  {
    assert forall k :: 0 <= k < |Blacklist| ==> |Blacklist[k]| > 0;
    EmptyContainsNoWord(Blacklist);
  }

  /** Any text that contains a noise line is itself noise. */
  lemma BlacklistSuperstring(s: string, t: string)
    requires CheckBlacklist(s) && Contains(t, s)
    ensures CheckBlacklist(t)
  {
    ContainsAnyInfix(s, t, Blacklist);
  }

  /** The empty subject is never admitted. */
  lemma EmptySubjectRejected()
    ensures !CheckSubjectWhitelist("")
  {
    assert forall k :: 0 <= k < |SubjectWhitelist| ==> |SubjectWhitelist[k]| > 0;
    EmptyContainsNoWord(SubjectWhitelist);
  }

  /** Any subject that contains an admitted subject is admitted. */
  lemma WhitelistSuperstring(s: string, t: string)
    requires CheckSubjectWhitelist(s) && Contains(t, s)
    ensures CheckSubjectWhitelist(t)
  {
    ContainsAnyInfix(s, t, SubjectWhitelist);
  }
}
