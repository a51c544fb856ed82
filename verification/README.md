# smtp-filter, modelled in Dafny

smtp-filter is a small library for writing mail filters that sit behind an MTA.
It has three parts, and this project models each of them.

- **The unparsed mail.** A mail is kept as its raw bytes plus the envelope
  sender and recipients. Headers are located with one case-insensitive
  multi-pattern scan: for the needle `"\n" + name`, the CRLF blank line and the
  LF blank line. The scan stops at the end of the header block. Header values are
  rewritten in place by splicing the byte buffer. Views derived from the headers
  (recipients, sender, cc, bcc, subject, user agent) are parsed on first use and
  then kept.
- **The filter pipeline.** This is an ordered list of steps. Each step
  continues, accepts the mail as it stands, or rejects it with an SMTP error.
- **The SMTP error.** A reply code and text, rendered as the reply line
  `"<code> <text>"` of section 4.2 of RFC 5321.

Modules, one file each:

- `Common` (common.dfy): bytes, `Option`/`Result`, and substring search
  (`Find`, the first occurrence, which is what `memmem::find` and `str::find`
  return).
- `Search` (search.dfy): the Aho-Corasick search, specified by its result.
  - The reported match is the one that ends first.
  - Among matches with the same end, the longest pattern wins; among patterns
    of equal length, the lowest index wins.
  - Matching ignores ASCII case.
- `Addresses` (addresses.dfy): address lists and `utils::iter_addrs`,
  `addr_list_from_iter`, `addr_single`, and the domain of the first address.
- `MailParse` (mailparse.dfy): the outside mail parser, as a value made of four
  functions. The one assumption about it is `Sound`: the raw value it parses
  out of some bytes occurs in those bytes.
- `VecOps` (vec.dfy): the `Vec<u8>` operations the splicer uses. Their
  preconditions are the bounds whose violation would make Rust panic.
- `Headers` (headers.dfy): the locator, the raw header lookup, the value span
  and the specification of `set_header`.
- `Mail` (mail.dfy): the class `UnparsedMail`. Its fields are the ones the Rust
  struct updates in place. Its memoising getters, `set_header` and
  `set_recipient` are methods with frames.
- `Smtp` (smtp.dfy): `Error`, its `Display`, and `unauthorized`.
- `Pipeline` (pipeline.dfy): `Action` and its conversions, and the class
  `Filter` with `filter` (here `Then`), `and_then`, `map` and `process`.
  - `Run` is the specification of a run. `Process` is the loop, proved
    against `Run`.
  - The pipeline is generic in the mail. A step is a function from the mail it
    receives to its action and the mail it leaves.

Behaviours kept exactly as the code has them:

- **The locator's index.** The locator answers the match start plus two
  (`src/lib.rs:107`), which is the second byte of the header name. It does not
  answer the offset just after the matched name. Both users of the locator
  start from this index. The splicer searches for the raw value from there.
  The getters hand the buffer from there to the outside parser
  (`src/lib.rs:111`), so for `To: v` the parser receives `o: v`. That is the
  input `MailParser.parseHeader` gets in this model.
- **Headers on the first line.** A header on the first line of the buffer has no
  newline before it and is never found.
- **`set_recipient`'s needle.** `set_recipient` rewrites the header named `to`,
  so its needle is `"\nto"` without a colon. The getters search for `"\nto:"`.
  As a result, any header whose name starts with "to", such as `Topic:`, also
  matches. If it comes before `To:`, its value is the one rewritten
  (`Mail.ToNameMatchesTopic`).
- **Where the value span starts.** The span starts at the first occurrence of
  the parsed raw value at or after the located index. For a short value, that
  occurrence can be inside the header name.
- **The rendered reply.** The reply line has no colon after the code
  (`"530 5.7.0 Authentication required"`). This follows the `Display`
  implementation, not the doc comment of `unauthorized`.

## Model

| member | source | states |
|---|---|---|
| `Common.Find` | src/lib.rs:206-207 | The answer is an occurrence of the needle with no earlier one; it is absent exactly when the needle does not occur. |
| `Search.ReportedAt` | src/lib.rs:98-102 | Among the patterns ending at one position, the answer is the longest, and the lowest index among equally long ones; it is absent only when none ends there. |
| `Search.FirstMatch` | src/lib.rs:98-102 | The reported match ends where its pattern occurs, ignoring case. No pattern ends earlier, and the tie rule holds at its end. There is no match exactly when no pattern occurs anywhere. |
| `Headers.GetHeaderIdx` | src/lib.rs:94-108 | A located index is at least 2 and the needle ends at index - 2 + length. For a newline-led needle, the byte at index - 2 is that newline. For a name of at least one byte, the index is within the buffer. |
| `Headers.GetHeaderIdxCharacterised` | src/lib.rs:95-108 | Both directions: the locator answers i exactly when the needle ends at i - 2 + length, no needle or blank line ends earlier, and no longer blank-line pattern ends at the same byte. |
| `Headers.LocatedBeforeBlankLine` | src/lib.rs:98-107 | A located header ends no later than any blank line in the buffer, so headers in the body are never found. |
| `Headers.BlankLineHidesHeader` | src/lib.rs:98-107 | When a blank line ends before every occurrence of the needle, the locator answers None. |
| `Headers.EmptyNameIndexPastEnd` | src/lib.rs:202-204 | As written, an empty header name makes the needle a lone newline. On the buffer "a\n" the locator answers 3, one past the end. |
| `Headers.HeaderNeverOnFirstLine` | src/lib.rs:94-107 | When no newline comes before offset k, a located header name starts after k, so a header on the first line is never found. |
| `Headers.GetHeaderRaw` | src/lib.rs:110-114 | An unlocated header has no raw form. A raw header is the parse of the buffer from the located index. `Headers.HeaderFound` states the converse. |
| `Headers.HeaderAddrs` | src/lib.rs:33-37 | A missing header gives the empty list. A non-empty list is the address parse of the located raw header. |
| `Headers.HeaderValue` | src/lib.rs:125-129 | A missing header gives the empty value. A non-empty value is the decoded value of the located raw header. |
| `Headers.HeaderFound` | src/lib.rs:110-114 | A located header whose bytes from the located index parse is read as that parse. The raw header is the parsed header, and the value is its decoded value. The address list is its address parse, or empty when that parse fails. |
| `Headers.HeaderInBodyReadsEmpty` | src/lib.rs:98-113 | A header that occurs only after a blank line reads as missing: no raw header, no addresses, an empty value. |
| `Headers.ValueSpan` | src/lib.rs:202-208 | The span lies within the buffer. It is absent exactly when the header is not located, the index is past the end, or the parse fails. |
| `Headers.ValueSpanIsFirstOccurrence` | src/lib.rs:205-208 | When located and parsed, the span holds the parsed raw value and starts at its first occurrence at or after the located index. |
| `Headers.SetHeaderResult` | src/lib.rs:200-232 | Without a span the buffer is unchanged. Otherwise the length changes by the new length minus the old value length; the prefix before the span and the tail after it are kept, with the new value between them. |
| `Headers.SetHeaderKeepsLocation` | src/lib.rs:200-232 | When the value span starts after the matched needle, the rewritten buffer locates the header at the same index, and the span holds the new value. |
| `Headers.HitNameLocated` | src/lib.rs:94-108 | In any buffer that starts with "x\nTo", the header "to" is located at index 3, the `o` of `To`, whatever follows. |
| `Headers.SetHeaderCanHitName` | src/lib.rs:205-229 | With a parser whose raw value for "o: o" is `o`, the value span is the `o` of the name, and rewriting "to" to `abc` gives "x\nTabc: o\n\n". |
| `Headers.RewrittenNameNotFound` | src/lib.rs:94-108 | In "x\nTabc: o\n\n" the header "to" is no longer found. |
| `Mail.ShrinkSplices` | src/lib.rs:210-214 | Moving the tail left, truncating and overwriting gives prefix + new value + tail. |
| `Mail.GrowSplices` | src/lib.rs:215-229 | Resizing with zeros, moving the tail right and overwriting gives prefix + new value + tail, including for equal lengths. |
| `Mail.UnparsedMail.SpliceValue` | src/lib.rs:209-229 | Both branches leave the buffer as prefix + new value + tail of the old buffer. |
| `Mail.UnparsedMail.SetHeader` | src/lib.rs:200-232 | The buffer becomes SetHeaderResult of the old buffer, and no other field changes. |
| `Mail.UnparsedMail.constructor` | src/lib.rs:43-58 | The buffer and envelope lists are those given, and every memo slot is empty. Decomposing the new mail with `IntoParts` gives back the buffer, the sender and the recipients it was built from. |
| `Mail.UnparsedMail.GetRecipients` | src/lib.rs:21-41 | A filled slot is returned unchanged. An empty one is filled with the parsed "to:" addresses, or the empty list on failure. |
| `Mail.UnparsedMail.GetSender` | src/lib.rs:21-41 | The same memo rule, for "from:". |
| `Mail.UnparsedMail.GetCc` | src/lib.rs:21-41 | The same memo rule, for "cc:". |
| `Mail.UnparsedMail.GetBcc` | src/lib.rs:21-41 | The same memo rule, for "bcc:". |
| `Mail.UnparsedMail.GetSubject` | src/lib.rs:121-131 | A filled slot is returned unchanged. An empty one is filled with the decoded subject, or the empty string when it is missing. |
| `Mail.UnparsedMail.GetUa` | src/lib.rs:132-142 | The same rule for the user agent. |
| `Mail.UnparsedMail.UserAgent` | src/lib.rs:192-199 | The answer is None exactly when the kept user agent is empty, and otherwise it is the kept value. |
| `Mail.UnparsedMail.HeaderDomain` | src/lib.rs:149-155 | The answer is the domain of the first address of the kept header recipients, which are filled on first use. |
| `Mail.UnparsedMail.Domain` | src/lib.rs:156-162 | The answer is the domain of the first envelope recipient. |
| `Mail.SubjectKeptAcrossRewrite` | src/lib.rs:121-131 | Reading the subject, rewriting any header, then reading it again gives the same value. |
| `Mail.UnparsedMail.SetRecipient` | src/lib.rs:234-260 | The envelope recipients become the new list under every policy. Keep leaves the buffer; the other policies splice the "to" value they compute. Only Sender fills the header-sender slot. |
| `Mail.ToNameMatchesTopic` | src/lib.rs:242-256 | The colon-less needle of `set_recipient` matches a longer name: in "x\nTopic: a\nTo: b\n\n" the "to" header is located in `Topic`, at index 3. |
| `Mail.SenderAddressFallback` | src/lib.rs:248-255 | The sender address is the first header sender if there is one, else the first envelope sender, else noreply@localhost. |
| `Mail.UndisclosedShowsName` | src/lib.rs:244-246 | Under Undisclosed, the new "to" value is the policy's name followed by " <>", whatever the recipients and senders. |
| `Mail.SenderShows` | src/lib.rs:247-257 | Under Sender, the new "to" value is the name, " <", an address and ">". The address is the first header sender if there is one, else the first envelope sender, else noreply@localhost. |
| `Mail.OnlyOpenDisclosesRecipients` | src/lib.rs:240-258 | Under every policy but Open, the new "to" value does not depend on the recipient list. It is absent exactly under Keep. |
| `Mail.UndisclosedRecipients` | src/lib.rs:406-412 | Whatever the recipients and senders, the standard policy rewrites the "to" value to "Undisclosed Recipients <>". |
| `Mail.ToHeaderValue` | src/lib.rs:240-258 | No new value exactly under Keep. Open shows the displayed recipient list. Undisclosed and Sender show their name first and end in `>`. `Mail.UndisclosedShowsName` and `Mail.SenderShows` give their exact values. |
| `Mail.SenderAddress` | src/lib.rs:249-255 | The shown address is noreply@localhost or the address of some mailbox of the header senders or of the envelope senders. |
| `Addresses.AddrListFromIter` | src/lib.rs:463-465 | Entry i is the single entry holding mailbox i, and there is one entry per mailbox. |
| `Addresses.IterAddrs` | src/lib.rs:456-461 | A mailbox is yielded exactly when it belongs to what some entry stands for: itself for a single entry, its members for a group. |
| `Addresses.AddrSingle` | src/lib.rs:467-475 | The list yields exactly one mailbox, the given address with no display name, which is also its first mailbox. |
| `Addresses.DomainOf` | src/lib.rs:150-154 | A domain exists only when there is a first mailbox. It is a proper suffix of that mailbox's address, just after an `@`. |
| `Addresses.IterAddrsAppend` | src/lib.rs:456-461 | Flattening distributes over concatenating lists. |
| `Addresses.IterAddrsFromIter` | src/lib.rs:456-465 | Building a list from mailboxes and flattening it gives the mailboxes back. |
| `Addresses.FirstAddrNone` | src/lib.rs:456-461 | The flattened list is empty exactly when every entry is an empty group. |
| `Addresses.FirstAddrAt` | src/lib.rs:456-461 | The first mailbox is the first one of the first entry that is not an empty group. |
| `Addresses.FirstAt` | src/lib.rs:151 | In local@rest with no @ in local, the first @ is the one right after local. |
| `Addresses.NoAt` | src/lib.rs:151 | The search for @ fails exactly when the address has no @. |
| `Addresses.DomainOfNone` | src/lib.rs:156-162 | There is no domain exactly when there is no mailbox or its address has no @. |
| `Addresses.DomainOfSome` | src/lib.rs:156-162 | Both directions: the domain is d exactly when the first address is local@d with no @ in local. |
| `Addresses.DomainOfAddrSingle` | src/lib.rs:467-475 | The list built from the single address local@domain has domain `domain`. |
| `Smtp.Decimal` | src/lib.rs:389 | The status is written as a non-empty string of digits with no leading zero. It is one digit exactly when the status is below 10. |
| `Smtp.DecimalRoundTrip` | src/lib.rs:389 | Reading the digits back gives the status. |
| `Smtp.ReplyRoundTrip` | src/lib.rs:387-391 | The rendered reply line splits back at its first space into the same status and message. |
| `Smtp.Unauthorized` | src/lib.rs:379-385 | The standard refusal renders as "530 5.7.0 Authentication required". |
| `Smtp.Render` | src/lib.rs:387-391 | The reply line is a run of digits, one space, then the message. |
| `Pipeline.FromBool` | src/lib.rs:274-282 | Never a rejection; true continues and false accepts as it is. |
| `Pipeline.FromOption` | src/lib.rs:283-291 | Some(()) converts like true and None like false. |
| `Pipeline.FromResult` | src/lib.rs:292-299 | Never an accept-as-is; Ok continues, and Err rejects with that same error. |
| `Pipeline.Run` | src/lib.rs:335-363 | A rejected run has a step that did not continue. An empty pipeline accepts the mail unchanged. |
| `Pipeline.RunAllContinue` | src/lib.rs:337-361 | When every step continues, the mail is accepted as the last step left it. |
| `Pipeline.RunAfterPrefix` | src/lib.rs:337-353 | After a prefix of continuing steps, the run goes on with the rest from the state the prefix left. |
| `Pipeline.RunStopsAtIgnore` | src/lib.rs:343-346 | A step that answers Ignore accepts the mail as that step left it, and no later step matters. |
| `Pipeline.RunStopsAtReject` | src/lib.rs:347-351 | A step that answers Reject ends the run with its error, and no later step matters. |
| `Pipeline.Filter.constructor` | src/lib.rs:307-311 | A new filter has no steps. |
| `Pipeline.Filter.Then` | src/lib.rs:317-320 | Appends one step and keeps the earlier ones. The new step converts the outcome of its function to an action and leaves the mail as the function does. |
| `Pipeline.Filter.AndThen` | src/lib.rs:322-324 | Appends a step that continues on Ok and rejects with the error on Err. |
| `Pipeline.Filter.Map` | src/lib.rs:326-331 | Appends a step that always continues with the changed mail. |
| `Pipeline.Filter.Process` | src/lib.rs:335-363 | An accepted run yields Ok of the decomposed mail; a rejected run yields Err of the rendered reply line. |

`into_parts` is `Mail.UnparsedMail.IntoParts`. It has no row of its own
because it is a plain read of three fields. Its partner is the constructor,
whose contract states that `IntoParts` gives back what the mail was built from. `Filter.Process` takes the
decomposition as its parameter `intoParts`.

## Left out

- `from_stdin`: reading stdin, parsing the command line and exiting the
  process are input/output. They are not part of this model.
- `log::info!` calls: their output is not modelled.
- `Mail.UnparsedMail.SpliceValue`: does not model one panic. In the grow
  branch, the log argument at `src/lib.rs:218` computes
  `contents.len() + current_len - s.len()`. This underflows when the new value
  is longer than the buffer plus the old value. In a build with overflow
  checks and info logging on, that is a panic inside `set_header`; otherwise
  it only garbles the log line. The model always completes the splice.
- aho-corasick and memchr internals: the automaton and the search loop are
  specified only by their results (`Search.FirstMatch`, `Common.Find`).
- mailparse internals: `parse_header`, `addrparse_header`, `get_value` and the
  `Display` of address lists are functions passed in as a `MailParser`. The
  only assumption made about them is `MailParser.Sound`.
- Boxed closures: a step is a pure function from mail to action and mail, not
  a heap closure that mutates the mail in place. As a result, the pipeline is
  proved over a mail value, not over the `UnparsedMail` object.
- `StructuredMail`: an empty trait with no behaviour.
- `header_recipients`, `header_sender`, `cc`, `bcc` and `subject` in the
  `BasicMail` implementation: these only call the getters above and log.
- `recipients` and `sender`: plain reads of the `to` and `from` fields.
- Text encoding: Rust `String`s in the mail are modelled as their UTF-8 bytes.
  The UTF-8 validity of header values and of `set_header`'s new value is not
  modelled.
- `Headers.SetHeaderResult`: does not promise that the header is found again
  after a rewrite, or that it reads back the new value. The value span is the
  first occurrence of the raw value at or after the located index, so it can
  lie inside the header name. `Headers.SetHeaderCanHitName` and
  `Headers.RewrittenNameNotFound` show a rewrite after which the header is no
  longer located. `Headers.SetHeaderKeepsLocation` proves the location is kept
  when the span starts after the name. What the parser then reads back is the
  parser's own business.
- `Mail.UnparsedMail.SetHeader`: when the empty-name needle locates an index
  past the end of the buffer, Rust panics (see Findings). The model treats
  that case as "not located" and leaves the buffer unchanged.

## Findings

| source | as written | input that shows it | evidently intended | confidence | as-written member | corrected member |
|---|---|---|---|---|---|---|
| src/lib.rs:202-204 | `set_header` slices `contents[idx..]` with idx = match start + 2. The needle `"\n" + name` is a single byte when the name is empty. | `set_header("", s)` on the buffer `"a\n"`: the newline matches at 1, so idx = 3 > 2 = length, and the slice panics. | A located index past the end of the buffer counts as not located, so `set_header` is a silent no-op there instead of panicking, like its other failures. | not executed | `Headers.EmptyNameIndexPastEnd` | `Headers.ValueSpan` |
