# Mail sender, modelled in Dafny

`mail_sender.py` prepares e-mails for a list of recipients. It keeps the
entries that contain `@` and one of the domain fragments `.com`, `.ru` or
`.net` in their lower-cased form, and strips them. It gives up with an empty
list when the recipient list is empty, when nothing passes the filter, or
when the subject or the body is blank. It drops every stripped entry equal
to the sender as given, cleans tabs and newlines out of the subject and the
body, and normalises (strips and lower-cases) the sender and the recipients.
It then builds one record per recipient: sender, recipient, subject, body,
date, masked sender (the first two login characters, then `***@`, then the
domain), short body (the body, cut to ten characters plus `...` when
longer), and the rendered text with its four labelled header lines.

The project has two modules:

- `Text` (`text.dfy`) holds the Python string operations the program relies
  on, on `seq<char>`. These are `str.strip` (the exact set of characters
  CPython treats as whitespace), `str.lower` (ASCII letters), the substring
  test, one-character `replace` and one-character `split`, together with
  `join` as the reference inverse of `split`.
- `MailSender` (`mail_sender.dfy`) holds the program itself. Each Python
  dictionary becomes a value of the datatype `Email`. Keys that are not set
  yet hold `""`. The two loops of the program, `get_correct_email` and
  `sender_email`, are methods. Each is proved equal to a specification
  function: `CorrectEmails` and `SentEmails`. The lemmas state the
  program's properties about those functions.

`sender_email` either returns a list or raises the `IndexError` of
`parts[1]` in `extract_login_domain`. That happens on the first pass of the
loop when the sender has no `@`. The model returns the datatype `Outcome`
(`Sent(emails)` or `IndexError`). `ExtractLoginDomain` returns an `Option`
whose `None` stands for that exception. The clock is a parameter:
`clock(k)` is the ISO date that `date.today()` returns on the `k`-th pass of
the loop.

## Model

| member | source | states |
|---|---|---|
| Text.Strip | mail_sender.py:5 | the result has no whitespace at either end, is no longer than the input, and is empty exactly when the input is all whitespace |
| Text.StripBounds | mail_sender.py:5 | the result is a contiguous piece of the input, and only whitespace lies before and after it |
| Text.StripKeeps | mail_sender.py:40 | a character that is not whitespace occurs in the stripped string exactly when it occurs in the input |
| Text.ToLower | mail_sender.py:5 | same length, and every character is its lower-case form |
| Text.ToLowerKeeps | mail_sender.py:39 | a character that is not a letter occurs in the lower-cased string exactly when it occurs in the input |
| Text.LowerStripBounds | mail_sender.py:39-40 | lower-casing the stripped entry gives a piece of the lower-cased entry with only whitespace around it |
| Text.ContainsTrimmed | mail_sender.py:39-40 | cutting whitespace off the ends does not change whether a fragment without whitespace at its ends occurs |
| Text.Replace | mail_sender.py:14 | same length; every occurrence of the target becomes the replacement, and every other character stays |
| Text.IndexOf | mail_sender.py:59 | the position of the first occurrence of the character |
| Text.Split | mail_sender.py:59 | at least one piece; two or more exactly when the separator occurs; no piece contains the separator |
| Text.SplitFirstTwo | mail_sender.py:59-60 | piece 0 is the text before the first separator; piece 1 is the text after it, up to the next separator |
| Text.JoinSplit | mail_sender.py:59 | joining the pieces of a split with the separator gives back the string |
| Text.SplitJoin | mail_sender.py:59 | splitting a join of separator-free pieces gives back the pieces |
| MailSender.NormalizeAddresses | mail_sender.py:4-5 | the result is stripped, has no upper-case letter, is no longer than the input, and holds `@` exactly when the input does |
| MailSender.NormalizeIdempotent | mail_sender.py:4-5 | normalising twice is the same as normalising once |
| MailSender.AddShortBody | mail_sender.py:8-10 | only `shortBody` changes; it is the body when at most ten characters, else the first ten and `...`, so at most 13 characters |
| MailSender.CleanBodyText | mail_sender.py:13-14 | same length, no newline and no tab; newlines and tabs become spaces and every other character stays |
| MailSender.CleanBodyTextIdempotent | mail_sender.py:13-14 | cleaning cleaned text changes nothing |
| MailSender.BuildSentText | mail_sender.py:17-24 | the text is 27 characters longer than the recipient, sender, subject, date and body together; it starts with the recipient line and ends with the cleaned body |
| MailSender.BuildSentTextJoins | mail_sender.py:17-24 | the rendered text is the four header lines, an empty line and the cleaned body, joined by newlines |
| MailSender.SentTextLinesRecovered | mail_sender.py:17-24 | when no header field holds a newline, splitting the rendered text on newlines gives back its six lines |
| MailSender.CheckEmptyFields | mail_sender.py:27-28 | each flag is set exactly when its field is all whitespace |
| MailSender.MaskSenderEmail | mail_sender.py:31-32 | the mask is the first min(2, len) login characters, then `***@`, then the domain |
| MailSender.MaskSenderEmailEqual | mail_sender.py:31-32 | two masks are equal exactly when the revealed login prefixes and the domains are equal |
| MailSender.AnyDomainIn | mail_sender.py:39 | true exactly when some fragment of the list occurs in the text |
| MailSender.IsCorrectEmail | mail_sender.py:37-39 | an entry is accepted exactly when it holds `@` and its lower-cased form contains `.com`, `.ru` or `.net` |
| MailSender.CorrectEmails | mail_sender.py:35-41 | the result is no longer than the input, and every kept address is stripped and contains `@` |
| MailSender.GetCorrectEmail | mail_sender.py:35-41 | the loop returns exactly `CorrectEmails` of the list |
| MailSender.CorrectEmailsAppend | mail_sender.py:38-40 | filtering a concatenation is the concatenation of the filtered parts, so the input order is kept |
| MailSender.CorrectEmailsMembers | mail_sender.py:38-40 | an address is in the result exactly when it is the strip of an entry that passes the test |
| MailSender.BlankIsNotCorrect | mail_sender.py:39 | an entry of whitespace only never passes the test |
| MailSender.DomainShape | mail_sender.py:37 | every domain fragment starts with `.` and ends with a letter |
| MailSender.StripKeepsCorrectness | mail_sender.py:39-40 | the stripped entry passes the test exactly when the entry does |
| MailSender.CorrectEmailsIdempotent | mail_sender.py:35-41 | filtering an already filtered list changes nothing |
| MailSender.CreateEmail | mail_sender.py:44-50 | the record holds the four given fields, and the keys not set yet are empty |
| MailSender.AddSendDate | mail_sender.py:53-55 | `date` becomes the date read from the clock, and no other field changes |
| MailSender.ExtractLoginDomain | mail_sender.py:58-60 | it fails exactly when there is no `@`; otherwise it returns the stripped text before the first `@` and after it (up to any second `@`), and neither part holds `@` |
| MailSender.ExtractLoginDomainInverse | mail_sender.py:58-60 | for a stripped login and domain without `@`, `login@domain` splits back into exactly that login and domain |
| MailSender.BuildEmail | mail_sender.py:91-104 | a record built in one pass keeps the sender, recipient, subject and body it was given and carries the date read on that pass. Its masked sender masks the sender's login and domain, its short body has at most 13 characters, and its rendered text is the text of the record itself |
| MailSender.BuildEmailFields | mail_sender.py:91-104 | every field of a record built in one pass of the loop, in closed form |
| MailSender.ExcludeSender | mail_sender.py:79 | an address is kept exactly when it is in the list and differs from the sender as given |
| MailSender.ExcludeSenderAppend | mail_sender.py:79 | dropping the sender from a concatenation is the concatenation of the filtered parts, so the kept addresses stay in input order |
| MailSender.ExcludeSenderSingleton | mail_sender.py:79 | a single address is dropped exactly when it equals the sender |
| MailSender.ExcludeSenderCount | mail_sender.py:79 | every address other than the sender keeps all of its occurrences, and the sender keeps none, so the length drops by the sender's count |
| MailSender.NormalizeAll | mail_sender.py:87 | one normalised address per kept recipient |
| MailSender.BuildEmails | mail_sender.py:90-106 | one record per recipient |
| MailSender.SentEmails | mail_sender.py:63-108 | an early exit returns the empty list; a returned list is never longer than the recipient list; the exception comes only from a sender without `@` |
| MailSender.SentEmailsFails | mail_sender.py:58-60 | the call raises exactly when it gets past the early exits and the sender has no `@` |
| MailSender.SentEmailsEmpty | mail_sender.py:63-79 | the call returns the empty list exactly at an early exit or when every accepted entry, once stripped, equals the sender as given |
| MailSender.SentEmailsRecords | mail_sender.py:79-106 | past the early exits, with an `@` in the sender: one record per kept entry, in order. Record `k` is dated `clock(k)`. Its sender, recipient, subject, body, short body (the cleaned message, or its first ten characters and `...`) and rendered text are given in closed form, and every record has the same masked sender |
| MailSender.SelfExclusionBeforeNormalizing | mail_sender.py:79-87 | an accepted entry whose stripped form differs from the sender as given, but which normalises to the same address, is kept, and its record is addressed to the sender |
| MailSender.SelfExclusionIsCaseSensitive | mail_sender.py:79-87 | with sender `me@x.ru`, the entry `Me@x.ru` yields one record whose recipient and sender are both `me@x.ru` |
| MailSender.SenderEmail | mail_sender.py:63-108 | the method's outcome is exactly `SentEmails` of its arguments, the exception included |

## Left out

- The example at the end of the file (lines 110-133) is left out. It builds a sample list, calls `sender_email` and prints the records.
- The clock: `date.today().isoformat()` is read once per record (line 54, called at line 93). It becomes the parameter `clock`, where `clock(k)` is the date read on the `k`-th pass, so records built on either side of midnight can carry different dates. The ISO format of the date is not modelled.
- Text.ToLower: lower-cases ASCII letters only, while Python's `str.lower` maps every Unicode letter. Entries with non-ASCII capitals therefore normalise differently.
- Mutation and aliasing of the dictionaries: `add_send_date`, `add_short_body` and the key assignments in the loop update the dictionary in place. The model returns an updated `Email` value. No other reference to these dictionaries exists in the program, so nothing observable is lost.
- The key set of the dictionaries: `create_email` returns four keys, and the other four are added later. `Email` always has all eight fields, with `""` until a field is set.
- Python's dynamic typing: non-string arguments, and the failures they would cause, are not modelled.
- MailSender.NormalizeAll: its contract states only the length. The contents of the records built from it are stated by `SentEmailsRecords`.
- MailSender.BuildEmails: its contract states only the length. The contents are stated by `BuildEmailFields` and `SentEmailsRecords`.
