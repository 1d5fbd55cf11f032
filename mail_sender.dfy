/*
 * The mail sender: it filters and normalises a recipient list and builds one
 * "sent email" record per remaining recipient. Python's dictionaries become
 * the immutable `Email` value, the clock is a parameter, and the two
 * loops of the source (`get_correct_email`, `sender_email`) are methods
 * proved against the functions `CorrectEmails` and `SentEmails`.
 */
module MailSender {
  import opened Text

  /**
   * A sent-email record: the eight keys of the dictionary `sender_email`
   * returns. Keys that the source adds later (`date`, `masked_sender`,
   * `short_body`, `sent_text`) hold "" until they are set.
   */
  datatype Email = Email(
    sender: string,
    recipient: string,
    subject: string,
    body: string,
    date: string,
    maskedSender: string,
    shortBody: string,
    sentText: string)

  datatype Option<T> = None | Some(value: T)

  /**
   * What a call of `sender_email` ends with: the list of records it returns,
   * or the `IndexError` that `extract_login_domain` raises on the first pass
   * of the loop when the sender has no `@`.
   */
  datatype Outcome = Sent(emails: seq<Email>) | IndexError

  /** The default value of `sender_email`'s keyword argument `sender`. */
  const DefaultSender: string := "default@study.com"

  /** The domain fragments an address must contain (`domains` in `get_correct_email`). */
  const Domains: seq<string> := [".com", ".ru", ".net"]

  function Min(a: int, b: int): int
  {
    if a <= b then a else b
  }

  // ---------------------------------------------------------------- normalising

  /** `normalize_addresses`: strip, then lower-case. */
  function NormalizeAddresses(value: string): (r: string)
    ensures |r| <= |value|
    ensures IsStripped(r)
    ensures forall k :: 0 <= k < |r| ==> !IsUpper(r[k])
    ensures '@' in r <==> '@' in value
  {
    var stripped := Strip(value);
    assert !IsSpace('@') && !IsLetter('@');
    StripKeeps(value, '@');
    ToLowerKeeps(stripped, '@');
    ToLower(stripped)
  }

  /** Normalising an address twice is the same as normalising it once. */
  lemma NormalizeIdempotent(value: string)
    ensures NormalizeAddresses(NormalizeAddresses(value)) == NormalizeAddresses(value)
  {
    var once := NormalizeAddresses(value);
    StrippedFixed(once);
    ToLowerFixed(once);
  }

  // ---------------------------------------------------------------- body text

  /** `clean_body_text`: every newline, then every tab, becomes a space. */
  function CleanBodyText(body: string): (r: string)
    ensures |r| == |body|
    ensures '\n' !in r && '\t' !in r
    ensures forall k :: 0 <= k < |body| && body[k] != '\n' && body[k] != '\t' ==> r[k] == body[k]
    ensures forall k :: 0 <= k < |body| && (body[k] == '\n' || body[k] == '\t') ==> r[k] == ' '
  {
    Replace(Replace(body, '\n', ' '), '\t', ' ')
  }

  /** Cleaning already cleaned text changes nothing. */
  lemma CleanBodyTextIdempotent(body: string)
    ensures CleanBodyText(CleanBodyText(body)) == CleanBodyText(body)
  {
    var once := CleanBodyText(body);
    var twice := CleanBodyText(once);
    forall k | 0 <= k < |once|
      ensures twice[k] == once[k]
    {
      assert once[k] != '\n' && once[k] != '\t';
    }
  }

  /** `check_empty_fields`: whether subject and body are empty once stripped. */
  function CheckEmptyFields(subject: string, body: string): (r: (bool, bool))
    ensures r.0 <==> IsBlank(subject)
    ensures r.1 <==> IsBlank(body)
  {
    (Strip(subject) == [], Strip(body) == [])
  }

  // ---------------------------------------------------------------- sender mask

  /** `mask_sender_email`: at most two login characters, then `***@`, then the domain. */
  function MaskSenderEmail(login: string, domain: string): (r: string)
    ensures var n := Min(2, |login|);
      |r| == n + 4 + |domain| && r[..n] == login[..n] && r[n..] == "***@" + domain
  {
    (if |login| < 2 then login else login[..2]) + "***@" + domain
  }

  /**
   * Two masks are equal exactly when the revealed login characters and the
   * domains are equal: the rest of the login leaves no trace in the mask.
   */
  lemma MaskSenderEmailEqual(login1: string, domain1: string, login2: string, domain2: string)
    ensures MaskSenderEmail(login1, domain1) == MaskSenderEmail(login2, domain2) <==>
            login1[..Min(2, |login1|)] == login2[..Min(2, |login2|)] && domain1 == domain2
  {
    var m1, m2 := MaskSenderEmail(login1, domain1), MaskSenderEmail(login2, domain2);
    var n1, n2 := Min(2, |login1|), Min(2, |login2|);
    assert forall k :: n1 <= k < n1 + 3 ==> m1[k] == m1[n1..][k - n1] == '*';
    assert forall k :: n2 <= k < n2 + 3 ==> m2[k] == m2[n2..][k - n2] == '*';
    assert m1[n1 + 3] == m1[n1..][3] == '@';
    assert m2[n2 + 3] == m2[n2..][3] == '@';
    if m1 == m2 {
      assert n1 == n2;
      assert m1[..n1] == m2[..n2];
      assert ("***@" + domain1)[4..] == domain1;
      assert ("***@" + domain2)[4..] == domain2;
      assert m1[n1..] == m2[n2..];
    }
  }

  /**
   * `extract_login_domain`: the stripped pieces before the first `@` and
   * after it (up to any second `@`); `None` stands for the `IndexError` of
   * `parts[1]` when there is no `@`.
   */
  function ExtractLoginDomain(address: string): (r: Option<(string, string)>)
    ensures r.None? <==> '@' !in address
    ensures r.Some? ==>
      var i := IndexOf(address, '@');
      var rest := address[i + 1..];
      r.value.0 == Strip(address[..i]) &&
      r.value.1 == Strip(if '@' in rest then rest[..IndexOf(rest, '@')] else rest)
    ensures r.Some? ==> '@' !in r.value.0 && '@' !in r.value.1
  {
    var parts := Split(address, '@');
    if |parts| < 2 then
      None
    else
      SplitFirstTwo(address, '@');
      StripKeeps(parts[0], '@');
      StripKeeps(parts[1], '@');
      Some((Strip(parts[0]), Strip(parts[1])))
  }

  /** Splitting `login@domain` gives back the login and the domain when neither has `@` or surrounding whitespace. */
  lemma ExtractLoginDomainInverse(login: string, domain: string)
    requires '@' !in login && '@' !in domain
    requires IsStripped(login) && IsStripped(domain)
    ensures ExtractLoginDomain(login + "@" + domain) == Some((login, domain))
  {
    var address := login + "@" + domain;
    assert address == Join([login, domain], '@');
    SplitJoin([login, domain], '@');
    StrippedFixed(login);
    StrippedFixed(domain);
  }

  // ---------------------------------------------------------------- records

  /** `create_email`: a record holding the four given fields and nothing else yet. */
  function CreateEmail(sender: string, recipient: string, subject: string, body: string): (r: Email)
    ensures r.sender == sender && r.recipient == recipient && r.subject == subject && r.body == body
    ensures r.date == [] && r.maskedSender == [] && r.shortBody == [] && r.sentText == []
  {
    Email(sender, recipient, subject, body, "", "", "", "")
  }

  /** `add_send_date`, with today's ISO date passed in: sets `date` and nothing else. */
  function AddSendDate(email: Email, today: string): (r: Email)
    ensures r.date == today
    ensures r.(date := email.date) == email
  {
    email.(date := today)
  }

  /** `add_short_body`: the body itself when at most ten characters, else its first ten and "...". */
  function AddShortBody(email: Email): (r: Email)
    ensures r.(shortBody := email.shortBody) == email
    ensures |r.shortBody| <= 13
    ensures |email.body| <= 10 ==> r.shortBody == email.body
    ensures |email.body| > 10 ==> r.shortBody == email.body[..10] + "..."
  {
    email.(shortBody := if |email.body| > 10 then email.body[..10] + "..." else email.body)
  }

  /** The six lines of a rendered email: four labelled header lines, a blank line and the cleaned body. */
  function SentTextLines(email: Email): seq<string>
  {
    ["Кому: " + email.recipient, "От: " + email.sender, "Тема: " + email.subject,
     "Дата: " + email.date, "", CleanBodyText(email.body)]
  }

  /** `build_sent_text`: the recipient, sender, subject and date lines, a blank line, then the cleaned body. */
  function BuildSentText(email: Email): (r: string)
    ensures |r| == 27 + |email.recipient| + |email.sender| + |email.subject| + |email.date| + |email.body|
    ensures "Кому: " + email.recipient + "\n" <= r
    ensures r[|r| - |email.body|..] == CleanBodyText(email.body)
  {
    var headers :=
      ("Кому: " + email.recipient) + "\n" +
      ("От: " + email.sender) + "\n" +
      ("Тема: " + email.subject) + "\n" +
      ("Дата: " + email.date) + "\n\n";
    var text := CleanBodyText(email.body);
    ConcatHalves(headers, text);
    headers + text
  }

  /** The rendered text is exactly the six lines of `SentTextLines` joined by newlines. */
  lemma BuildSentTextJoins(email: Email)
    ensures BuildSentText(email) == Join(SentTextLines(email), '\n')
  {
    var lines := SentTextLines(email);
    JoinSix(lines, '\n');
    var head := lines[0] + "\n" + lines[1] + "\n" + lines[2] + "\n" + lines[3];
    assert head + "\n" + "" + "\n" + lines[5] == head + "\n\n" + lines[5];
  }

  /** Joining six pieces puts one separator between each neighbouring pair. */
  lemma JoinSix(lines: seq<string>, sep: char)
    requires |lines| == 6
    ensures Join(lines, sep) ==
      lines[0] + [sep] + lines[1] + [sep] + lines[2] + [sep] + lines[3] + [sep] + lines[4] + [sep] + lines[5]
  {
    assert Join(lines[4..], sep) == lines[4] + [sep] + lines[5] by {
      assert lines[4..][1..] == lines[5..];
    }
    assert Join(lines[3..], sep) == lines[3] + [sep] + Join(lines[4..], sep) by {
      assert lines[3..][1..] == lines[4..];
    }
    assert Join(lines[2..], sep) == lines[2] + [sep] + Join(lines[3..], sep) by {
      assert lines[2..][1..] == lines[3..];
    }
    assert Join(lines[1..], sep) == lines[1] + [sep] + Join(lines[2..], sep) by {
      assert lines[1..][1..] == lines[2..];
    }
  }

  /** When no header field holds a newline, splitting the rendered text on newlines recovers its six lines. */
  lemma SentTextLinesRecovered(email: Email)
    requires '\n' !in email.recipient && '\n' !in email.sender
    requires '\n' !in email.subject && '\n' !in email.date
    ensures Split(BuildSentText(email), '\n') == SentTextLines(email)
  {
    var lines := SentTextLines(email);
    assert forall k :: 0 <= k < |lines| ==> '\n' !in lines[k] by {
      assert '\n' !in lines[0] && '\n' !in lines[1] && '\n' !in lines[2] && '\n' !in lines[3];
    }
    SplitJoin(lines, '\n');
    BuildSentTextJoins(email);
  }

  /**
   * One pass of the loop in `sender_email`: create the record, stamp the
   * date, attach the masked sender, the short body and the rendered text.
   */
  function BuildEmail(sender: string, recipient: string, subject: string, body: string, today: string): (r: Email)
    requires '@' in sender
    ensures r.sender == sender && r.recipient == recipient && r.subject == subject && r.body == body
    ensures r.date == today
    ensures r.maskedSender == MaskSenderEmail(ExtractLoginDomain(sender).value.0, ExtractLoginDomain(sender).value.1)
    ensures |r.shortBody| <= 13
    ensures r.sentText == BuildSentText(r)
  {
    var email := AddSendDate(CreateEmail(sender, recipient, subject, body), today);
    var (login, domain) := ExtractLoginDomain(sender).value;
    var email := email.(maskedSender := MaskSenderEmail(login, domain));
    var email := AddShortBody(email);
    email.(sentText := BuildSentText(email))
  }

  /** Every field of a built record in closed form. */
  lemma BuildEmailFields(sender: string, recipient: string, subject: string, body: string, today: string)
    requires '@' in sender
    ensures var r := BuildEmail(sender, recipient, subject, body, today);
      r.sender == sender && r.recipient == recipient && r.subject == subject && r.body == body &&
      r.date == today &&
      r.maskedSender == MaskSenderEmail(ExtractLoginDomain(sender).value.0, ExtractLoginDomain(sender).value.1) &&
      r.shortBody == (if |body| <= 10 then body else body[..10] + "...") &&
      r.sentText ==
        ("Кому: " + recipient) + "\n" + ("От: " + sender) + "\n" + ("Тема: " + subject) + "\n" +
        ("Дата: " + today) + "\n\n" + CleanBodyText(body)
  {
  }

  // ---------------------------------------------------------------- filtering

  /** Python's `any(domain in text for domain in domains)`: some fragment of the list occurs in the text. */
  predicate AnyDomainIn(text: string, domains: seq<string>): (r: bool)
    ensures r <==> exists k :: 0 <= k < |domains| && Contains(text, domains[k])
  {
    domains != [] && (Contains(text, domains[0]) || AnyDomainIn(text, domains[1..]))
  }

  /** The test of `get_correct_email`: an `@` somewhere and, lower-cased, one of the domain fragments somewhere. */
  predicate IsCorrectEmail(email: string): (r: bool)
    ensures var lowered := ToLower(email);
      r <==> '@' in email && (Contains(lowered, ".com") || Contains(lowered, ".ru") || Contains(lowered, ".net"))
  {
    var lowered := ToLower(email);
    assert Domains[0] == ".com" && Domains[1] == ".ru" && Domains[2] == ".net";
    assert AnyDomainIn(lowered, Domains) <==>
      Contains(lowered, Domains[0]) || Contains(lowered, Domains[1]) || Contains(lowered, Domains[2]);
    '@' in email && AnyDomainIn(lowered, Domains)
  }

  /** What `get_correct_email` returns: the accepted entries, stripped, in input order. */
  function CorrectEmails(emails: seq<string>): (r: seq<string>)
    ensures |r| <= |emails|
    ensures forall k :: 0 <= k < |r| ==> IsStripped(r[k]) && '@' in r[k]
  {
    if emails == [] then []
    else
      StripKeeps(emails[0], '@');
      (if IsCorrectEmail(emails[0]) then [Strip(emails[0])] else []) + CorrectEmails(emails[1..])
  }

  /** Filtering distributes over concatenation, so it keeps the input order. */
  lemma {:induction false} CorrectEmailsAppend(a: seq<string>, b: seq<string>)
    ensures CorrectEmails(a + b) == CorrectEmails(a) + CorrectEmails(b)
  {
    if a == [] {
      assert a + b == b;
    } else {
      assert (a + b)[0] == a[0];
      assert (a + b)[1..] == a[1..] + b;
      CorrectEmailsAppend(a[1..], b);
    }
  }

  /** An entry is kept exactly when it passes the test, and it is kept stripped. */
  lemma {:induction false} CorrectEmailsMembers(emails: seq<string>, s: string)
    ensures s in CorrectEmails(emails) <==> exists e :: e in emails && IsCorrectEmail(e) && Strip(e) == s
  {
    if emails != [] {
      CorrectEmailsMembers(emails[1..], s);
      assert forall e :: e in emails <==> e == emails[0] || e in emails[1..];
    }
  }

  /** Blank entries (such as "" or "   ") never pass the test. */
  lemma BlankIsNotCorrect(email: string)
    requires IsBlank(email)
    ensures !IsCorrectEmail(email)
  {
  }

  /** Every domain fragment starts with a dot and ends with a letter, so neither end is whitespace. */
  lemma DomainShape(k: nat)
    requires k < |Domains|
    ensures var d := Domains[k]; d != [] && d[0] == '.' && IsLetter(d[|d| - 1])
  {
    if k == 0 {
      assert Domains[0] == ".com";
    } else if k == 1 {
      assert Domains[1] == ".ru";
    } else {
      assert Domains[2] == ".net";
    }
  }

  /** Stripping an entry does not change whether it passes the test. */
  lemma StripKeepsCorrectness(email: string)
    ensures IsCorrectEmail(Strip(email)) <==> IsCorrectEmail(email)
  {
    StripKeeps(email, '@');
    forall k | 0 <= k < |Domains|
      ensures Contains(ToLower(Strip(email)), Domains[k]) <==> Contains(ToLower(email), Domains[k])
    {
      StripKeepsDomain(email, k);
    }
    AnyDomainInAgree(ToLower(Strip(email)), ToLower(email), Domains);
  }

  lemma StripKeepsDomain(email: string, k: nat)
    requires k < |Domains|
    ensures Contains(ToLower(Strip(email)), Domains[k]) <==> Contains(ToLower(email), Domains[k])
  {
    var i, j := LowerStripBounds(email);
    var d := Domains[k];
    assert d != [] && !IsSpace(d[0]) && !IsSpace(d[|d| - 1]) by {
      DomainShape(k);
    }
    ContainsTrimmed(ToLower(email), i, j, d);
  }

  /** Two texts that contain the same domain fragments agree on `AnyDomainIn`. */
  lemma {:induction false} AnyDomainInAgree(text1: string, text2: string, domains: seq<string>)
    requires forall k :: 0 <= k < |domains| ==> (Contains(text1, domains[k]) <==> Contains(text2, domains[k]))
    ensures AnyDomainIn(text1, domains) <==> AnyDomainIn(text2, domains)
  {
    if domains != [] {
      AnyDomainInAgree(text1, text2, domains[1..]);
    }
  }

  /** Filtering an already filtered list changes nothing. */
  lemma {:induction false} CorrectEmailsIdempotent(emails: seq<string>)
    ensures CorrectEmails(CorrectEmails(emails)) == CorrectEmails(emails)
  {
    if emails != [] {
      var e := emails[0];
      var rest := CorrectEmails(emails[1..]);
      CorrectEmailsIdempotent(emails[1..]);
      if IsCorrectEmail(e) {
        var kept := [Strip(e)] + rest;
        assert CorrectEmails(emails) == kept;
        StripKeepsCorrectness(e);
        StrippedFixed(Strip(e));
        assert kept[0] == Strip(e) && kept[1..] == rest;
      } else {
        assert CorrectEmails(emails) == rest;
      }
    } else {
      assert CorrectEmails(emails) == [];
    }
  }

  /** `get_correct_email`: the loop that appends each accepted entry, stripped. */
  method GetCorrectEmail(emailList: seq<string>) returns (validEmails: seq<string>)
    ensures validEmails == CorrectEmails(emailList)
  {
    validEmails := [];
    for i := 0 to |emailList|
      invariant validEmails == CorrectEmails(emailList[..i])
    {
      var email := emailList[i];
      CorrectEmailsAppend(emailList[..i], [email]);
      assert emailList[..i + 1] == emailList[..i] + [email];
      assert CorrectEmails([email]) == if IsCorrectEmail(email) then [Strip(email)] else [] by {
        assert [email][1..] == [];
      }
      if IsCorrectEmail(email) {
        validEmails := validEmails + [Strip(email)];
      }
    }
    assert emailList[..|emailList|] == emailList;
  }

  /** The comprehension that drops every recipient exactly equal to the sender, keeping the order. */
  function ExcludeSender(recipients: seq<string>, sender: string): (r: seq<string>)
    ensures |r| <= |recipients|
    ensures forall x :: x in r <==> x in recipients && x != sender
  {
    if recipients == [] then []
    else
      assert forall x :: x in recipients <==> x == recipients[0] || x in recipients[1..];
      (if recipients[0] != sender then [recipients[0]] else []) + ExcludeSender(recipients[1..], sender)
  }

  /** Dropping the sender distributes over concatenation, so the kept addresses stay in input order. */
  lemma {:induction false} ExcludeSenderAppend(a: seq<string>, b: seq<string>, sender: string)
    ensures ExcludeSender(a + b, sender) == ExcludeSender(a, sender) + ExcludeSender(b, sender)
  {
    if a == [] {
      assert a + b == b;
    } else {
      var kept := if a[0] != sender then [a[0]] else [];
      assert (a + b)[0] == a[0] && (a + b)[1..] == a[1..] + b;
      ExcludeSenderAppend(a[1..], b, sender);
      calc {
        ExcludeSender(a + b, sender);
        kept + ExcludeSender(a[1..] + b, sender);
        kept + (ExcludeSender(a[1..], sender) + ExcludeSender(b, sender));
        (kept + ExcludeSender(a[1..], sender)) + ExcludeSender(b, sender);
        ExcludeSender(a, sender) + ExcludeSender(b, sender);
      }
    }
  }

  /** A single address is dropped exactly when it is the sender. */
  lemma ExcludeSenderSingleton(x: string, sender: string)
    ensures ExcludeSender([x], sender) == if x == sender then [] else [x]
  {
    assert [x][1..] == [];
  }

  /**
   * Exactly the copies of the sender are dropped: every other address keeps
   * all of its occurrences, duplicates included.
   */
  lemma {:induction false} ExcludeSenderCount(recipients: seq<string>, sender: string)
    ensures multiset(ExcludeSender(recipients, sender)) == multiset(recipients)[sender := 0]
    ensures |ExcludeSender(recipients, sender)| == |recipients| - multiset(recipients)[sender]
  {
    if recipients != [] {
      var x, rest := recipients[0], recipients[1..];
      assert recipients == [x] + rest;
      ExcludeSenderCount(rest, sender);
      assert multiset(recipients) == multiset{x} + multiset(rest);
      var kept := if x != sender then [x] else [];
      assert ExcludeSender(recipients, sender) == kept + ExcludeSender(rest, sender);
      assert multiset(kept + ExcludeSender(rest, sender)) == multiset(kept) + multiset(ExcludeSender(rest, sender));
    }
  }

  // ---------------------------------------------------------------- pipeline

  /** The exits of `sender_email` that return an empty list before any record is built. */
  predicate EarlyExit(recipientList: seq<string>, subject: string, message: string)
  {
    recipientList == [] || CorrectEmails(recipientList) == [] || IsBlank(subject) || IsBlank(message)
  }

  /**
   * How `sender_email` ends, where `clock(k)` is the ISO date that
   * `date.today()` gives on the `k`-th pass of the loop: the early exits,
   * then the records built for the kept, normalised recipients, unless the
   * loop has a first pass and the sender has no `@`.
   */
  function SentEmails(recipientList: seq<string>, subject: string, message: string, sender: string, clock: nat -> string): (r: Outcome)
    ensures EarlyExit(recipientList, subject, message) ==> r == Sent([])
    ensures r.Sent? ==> |r.emails| <= |recipientList|
    ensures r.IndexError? ==> '@' !in sender
  {
    if recipientList == [] then Sent([])
    else
      var valid := CorrectEmails(recipientList);
      if valid == [] then Sent([])
      else
        var (subjectEmpty, bodyEmpty) := CheckEmptyFields(subject, message);
        if subjectEmpty || bodyEmpty then Sent([])
        else
          var recipients := NormalizeAll(ExcludeSender(valid, sender));
          var from := NormalizeAddresses(sender);
          if '@' in from then
            Sent(BuildEmails(recipients, from, CleanBodyText(subject), CleanBodyText(message), clock))
          else if recipients == [] then Sent([])
          else IndexError
  }

  /** Past the early exits, and with an `@` in the sender, the result is the records built for the kept, normalised recipients. */
  lemma SentEmailsBuilds(recipientList: seq<string>, subject: string, message: string, sender: string, clock: nat -> string)
    requires '@' in sender
    requires !EarlyExit(recipientList, subject, message)
    ensures SentEmails(recipientList, subject, message, sender, clock) ==
      Sent(BuildEmails(NormalizeAll(ExcludeSender(CorrectEmails(recipientList), sender)), NormalizeAddresses(sender),
                       CleanBodyText(subject), CleanBodyText(message), clock))
  {
  }

  /**
   * The call raises exactly when it gets past the early exits with a sender
   * that has no `@`: every accepted entry has one, so none of them is the
   * sender and the loop does run.
   */
  lemma SentEmailsFails(recipientList: seq<string>, subject: string, message: string, sender: string, clock: nat -> string)
    ensures SentEmails(recipientList, subject, message, sender, clock) == IndexError <==>
      !EarlyExit(recipientList, subject, message) && '@' !in sender
  {
    if !EarlyExit(recipientList, subject, message) && '@' !in sender {
      var valid := CorrectEmails(recipientList);
      assert valid[0] != sender;
      assert valid[0] in ExcludeSender(valid, sender);
    }
  }

  /**
   * The empty list comes back exactly when the list is empty, no entry
   * passes the filter, subject or body is blank, or every accepted entry is
   * the sender as given.
   */
  lemma SentEmailsEmpty(recipientList: seq<string>, subject: string, message: string, sender: string, clock: nat -> string)
    ensures SentEmails(recipientList, subject, message, sender, clock) == Sent([]) <==>
      EarlyExit(recipientList, subject, message) ||
      forall v :: v in CorrectEmails(recipientList) ==> v == sender
  {
    if !EarlyExit(recipientList, subject, message) {
      var valid := CorrectEmails(recipientList);
      assert valid[0] in valid && '@' in valid[0];
      var kept := ExcludeSender(valid, sender);
      if kept != [] {
        assert kept[0] in kept;
      }
    }
  }

  /**
   * Otherwise there is one record per accepted entry that differs from the
   * sender as given, in input order, with every field in closed form; the
   * masked sender is the same in all of them.
   */
  lemma SentEmailsRecords(recipientList: seq<string>, subject: string, message: string, sender: string, clock: nat -> string)
    requires '@' in sender
    requires !EarlyExit(recipientList, subject, message)
    ensures SentEmails(recipientList, subject, message, sender, clock).Sent?
    ensures var emails := SentEmails(recipientList, subject, message, sender, clock).emails;
      var kept := ExcludeSender(CorrectEmails(recipientList), sender);
      var from := NormalizeAddresses(sender);
      var (login, domain) := ExtractLoginDomain(from).value;
      |emails| == |kept| && |emails| <= |recipientList| &&
      forall k :: 0 <= k < |emails| ==>
        emails[k].recipient == NormalizeAddresses(kept[k]) &&
        emails[k].sender == from &&
        emails[k].subject == CleanBodyText(subject) &&
        emails[k].body == CleanBodyText(message) &&
        emails[k].date == clock(k) &&
        emails[k].maskedSender == MaskSenderEmail(login, domain) &&
        emails[k].shortBody ==
          (if |CleanBodyText(message)| <= 10 then CleanBodyText(message) else CleanBodyText(message)[..10] + "...") &&
        emails[k].sentText ==
          ("Кому: " + emails[k].recipient) + "\n" + ("От: " + from) + "\n" + ("Тема: " + CleanBodyText(subject)) + "\n" +
          ("Дата: " + clock(k)) + "\n\n" + CleanBodyText(message)
  {
    SentEmailsBuilds(recipientList, subject, message, sender, clock);
    var kept := ExcludeSender(CorrectEmails(recipientList), sender);
    var from := NormalizeAddresses(sender);
    var body := CleanBodyText(message);
    var emails := BuildEmails(NormalizeAll(kept), from, CleanBodyText(subject), body, clock);
    CleanBodyTextIdempotent(message);
    forall k | 0 <= k < |emails|
      ensures var (login, domain) := ExtractLoginDomain(from).value;
        emails[k].recipient == NormalizeAddresses(kept[k]) &&
        emails[k].sender == from &&
        emails[k].subject == CleanBodyText(subject) &&
        emails[k].body == body &&
        emails[k].date == clock(k) &&
        emails[k].maskedSender == MaskSenderEmail(login, domain) &&
        emails[k].shortBody == (if |body| <= 10 then body else body[..10] + "...") &&
        emails[k].sentText ==
          ("Кому: " + emails[k].recipient) + "\n" + ("От: " + from) + "\n" + ("Тема: " + CleanBodyText(subject)) + "\n" +
          ("Дата: " + clock(k)) + "\n\n" + body
    {
      BuildEmailFields(from, NormalizeAddresses(kept[k]), CleanBodyText(subject), body, clock(k));
    }
  }

  /**
   * Self-exclusion compares before normalising: an accepted entry whose
   * stripped form is not literally the sender, but which normalises to the
   * same address, is kept, and its record is addressed to the sender itself.
   */
  lemma SelfExclusionBeforeNormalizing(entry: string, subject: string, message: string, sender: string, clock: nat -> string)
    requires '@' in sender
    requires IsCorrectEmail(entry) && Strip(entry) != sender
    requires NormalizeAddresses(entry) == NormalizeAddresses(sender)
    requires !IsBlank(subject) && !IsBlank(message)
    ensures var outcome := SentEmails([entry], subject, message, sender, clock);
      outcome.Sent? && var emails := outcome.emails;
      |emails| == 1 && emails[0].recipient == emails[0].sender == NormalizeAddresses(sender)
  {
    var kept := Strip(entry);
    CorrectEmailsSingleton(entry);
    assert ExcludeSender([kept], sender) == [kept] by {
      assert [kept][1..] == [];
    }
    StrippedFixed(kept);
    assert NormalizeAddresses(kept) == NormalizeAddresses(entry);
    SentEmailsRecords([entry], subject, message, sender, clock);
  }

  /** For instance "Me@x.ru" is not excluded when the sender is "me@x.ru". */
  lemma SelfExclusionIsCaseSensitive(clock: nat -> string)
    ensures var outcome := SentEmails(["Me@x.ru"], "Hi", "Body", "me@x.ru", clock);
      outcome.Sent? && var emails := outcome.emails;
      |emails| == 1 && emails[0].recipient == emails[0].sender == "me@x.ru"
  {
    var entry, sender := "Me@x.ru", "me@x.ru";
    UpperCaseEntryFacts();
    LowerCaseSenderFacts();
    SampleTextFacts();
    SelfExclusionBeforeNormalizing(entry, "Hi", "Body", sender, clock);
  }

  /** The sample subject and body are not blank. */
  lemma SampleTextFacts()
    ensures !IsBlank("Hi") && !IsBlank("Body")
  {
    assert !IsSpace("Hi"[0]);
    assert !IsSpace("Body"[0]);
  }

  /** The sample entry passes the filter, is already stripped and normalises to the sample sender. */
  lemma UpperCaseEntryFacts()
    ensures IsCorrectEmail("Me@x.ru") && IsStripped("Me@x.ru")
    ensures NormalizeAddresses("Me@x.ru") == "me@x.ru"
  {
    SampleLowered();
    SampleStripped();
    SamplePasses();
  }

  /** The sample entry has no surrounding whitespace. */
  lemma SampleStripped()
    ensures IsStripped("Me@x.ru") && Strip("Me@x.ru") == "Me@x.ru"
  {
    var entry := "Me@x.ru";
    assert entry[0] == 'M' && entry[6] == 'u';
    StrippedFixed(entry);
  }

  /** The lower-cased sample entry holds the fragment ".ru". */
  lemma SamplePasses()
    ensures AnyDomainIn("me@x.ru", Domains)
  {
    var lowered := "me@x.ru";
    assert lowered[4..7] == Domains[1] by {
      assert Domains[1] == ".ru";
      assert lowered[4] == '.' && lowered[5] == 'r' && lowered[6] == 'u';
    }
    assert OccursAt(lowered, Domains[1], 4);
    assert Contains(lowered, Domains[1]);
  }

  /** Lower-casing the sample entry lowers its first letter only. */
  lemma SampleLowered()
    ensures ToLower("Me@x.ru") == "me@x.ru"
  {
    var lowered := ToLower("Me@x.ru");
    assert |lowered| == 7;
    forall k | 0 <= k < 7 ensures lowered[k] == "me@x.ru"[k] {
      assert lowered[k] == Lower("Me@x.ru"[k]);
    }
  }

  /** The sample sender is already normalised. */
  lemma LowerCaseSenderFacts()
    ensures NormalizeAddresses("me@x.ru") == "me@x.ru"
  {
    UpperCaseEntryFacts();
    NormalizeIdempotent("Me@x.ru");
  }

  /** A one-entry list whose entry passes the test keeps that entry, stripped. */
  lemma CorrectEmailsSingleton(entry: string)
    requires IsCorrectEmail(entry)
    ensures CorrectEmails([entry]) == [Strip(entry)]
  {
    assert [entry][1..] == [];
  }

  /** The comprehension that normalises every remaining recipient. */
  function NormalizeAll(addresses: seq<string>): (r: seq<string>)
    ensures |r| == |addresses|
  {
    seq(|addresses|, k requires 0 <= k < |addresses| => NormalizeAddresses(addresses[k]))
  }

  /** One record per recipient, in order, all from the same sender and with the same subject and body, dated by the clock on the pass that builds it. */
  function BuildEmails(recipients: seq<string>, sender: string, subject: string, body: string, clock: nat -> string): (r: seq<Email>)
    requires '@' in sender
    ensures |r| == |recipients|
  {
    seq(|recipients|, k requires 0 <= k < |recipients| => BuildEmail(sender, recipients[k], subject, body, clock(k)))
  }

  /**
   * `sender_email`, where `clock(k)` is the ISO date that `date.today()`
   * gives on the `k`-th pass of the loop: the early exits, then one record
   * per recipient.
   */
  method SenderEmail(recipientList: seq<string>, subject: string, message: string, clock: nat -> string,
                     sender: string := DefaultSender)
    returns (outcome: Outcome)
    ensures outcome == SentEmails(recipientList, subject, message, sender, clock)
  {
    if recipientList == [] {
      return Sent([]);
    }
    var validRecipients := GetCorrectEmail(recipientList);
    if validRecipients == [] {
      return Sent([]);
    }
    var (isSubjectEmpty, isBodyEmpty) := CheckEmptyFields(subject, message);
    if isSubjectEmpty || isBodyEmpty {
      return Sent([]);
    }
    validRecipients := ExcludeSender(validRecipients, sender);
    var cleanSubject := CleanBodyText(subject);
    var cleanMessage := CleanBodyText(message);
    var from := NormalizeAddresses(sender);
    validRecipients := NormalizeAll(validRecipients);
    ghost var expected :=
      if '@' in from then BuildEmails(validRecipients, from, cleanSubject, cleanMessage, clock) else [];
    var emails := [];
    for i := 0 to |validRecipients|
      invariant '@' in from ==> emails == expected[..i]
      invariant '@' !in from ==> i == 0 && emails == []
    {
      var recipient := validRecipients[i];
      var email := CreateEmail(from, recipient, cleanSubject, cleanMessage);
      email := AddSendDate(email, clock(i));
      var parts := ExtractLoginDomain(from);
      if parts.None? {
        return IndexError;
      }
      var (login, domain) := parts.value;
      email := email.(maskedSender := MaskSenderEmail(login, domain));
      email := AddShortBody(email);
      email := email.(sentText := BuildSentText(email));
      assert email == BuildEmail(from, recipient, cleanSubject, cleanMessage, clock(i));
      assert expected[i] == BuildEmail(from, recipient, cleanSubject, cleanMessage, clock(i));
      PrefixExtend(expected, i);
      emails := emails + [email];
    }
    if '@' in from {
      PrefixWhole(expected);
    }
    return Sent(emails);
  }

  /** Extending a prefix by one element; kept apart so that the loop proof above stays small. */
  lemma PrefixExtend<T>(s: seq<T>, i: nat)
    requires i < |s|
    ensures s[..i + 1] == s[..i] + [s[i]]
  {
  }

  /** The prefix of full length is the whole sequence. */
  lemma PrefixWhole<T>(s: seq<T>)
    ensures s[..|s|] == s
  {
  }

  /** Each operand of a concatenation can be cut back out of it. */
  lemma ConcatHalves<T>(a: seq<T>, b: seq<T>)
    ensures (a + b)[..|a|] == a && (a + b)[|a|..] == b
  {
  }
}
