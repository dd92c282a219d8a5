# Email threading, modelled in Dafny

This project models the thread-reconstruction part of the `email-read`
script (`improved.py`). The script fetches the messages whose subject matches
a filter. It stores each one in `msgid_to_email`, a dictionary from
Message-ID to the message's data, and in `subject_threads`, which maps a
normalised subject to the messages carrying it. It then links the messages
into reply chains, one subject group at a time.

The model has three modules:

- `Subjects` (`subjects.dfy`) covers three pure string helpers:
  - `normalize_subject`: `str.strip` with Python's whitespace set, then removal of one leading `Re:`/`Fwd:`/`FW:` in any case, together with the blanks after it;
  - `determine_type`;
  - `safe_folder_name`.
- `MailIndex` (`mail_index.dfy`) covers what is stored for each fetched message:
  - the `Message` value the threading reads;
  - the index as a map plus its key order (Python dictionaries iterate in insertion order, and an overwritten key keeps its place);
  - specification functions over the sequence of fetched messages;
  - the class `MessageStore`, whose `Add` method performs the two updates on lines 120-121.
- `Threading` (`threading.dfy`) covers the linking:
  - the walk from a message up to its root;
  - the breadth-first collection of a chain over direct replies (a reply matches when its stripped In-Reply-To equals the stripped Message-ID), specified by the function `BreadthFirst`;
  - the loop over one subject group, whose `visited` set is shared by that group's chains, specified by the function `GroupLoop`;
  - the loop over all groups;
  - `ThreadMessages`, which stores every message and then links the threads.

A message is represented by four fields:
- its Message-ID, empty when the header is missing;
- its In-Reply-To value, empty when missing;
- its decoded subject;
- whether an In-Reply-To header is present.

The script reads nothing else of a message while it threads.

Points where the code's behaviour is easy to misread; the model follows the
code:
- **One prefix only.** Only the outermost reply or forward prefix is removed, so "Re: Re: X" gets the key "Re: X" and not "X" (`NormalizeStackedReplies`).
- **Kind from the raw subject.** The kind is read from the raw, unstripped subject, while the key is read from the stripped one (`LeadingBlankHidesPrefix`).
- **Raw walk, stripped scan.** The root walk compares the raw In-Reply-To with the index keys (line 138), while the reply scan compares stripped values (line 157). A reply whose In-Reply-To names its parent only once stripped is not walked up to that parent. If it comes first in its group, it opens a chain of its own ahead of its parent's chain, and the scan from the parent finds it already visited (`ReplyAheadOfParent`).
- **Unbounded root walk.** The root walk has no cycle guard and no step cap. See "Findings".
- **Visited set per group.** `visited` starts empty for each subject group. A message that a reply links into two groups therefore appears in a chain of each. Within one group, no Message-ID appears twice across the chains (`GroupChains`). A chain shows the index entry stored under each id, which is the last message fetched with that id, so an earlier message that shared the id never appears. Replies are looked up in the whole index, so a chain can also hold messages whose subject belongs to another group.
- **No date ordering.** Chains are emitted in discovery order, not sorted by date.
- **No References fallback.** Only In-Reply-To is read, never References.
- **Empty Message-IDs.** A missing Message-ID is stored under the key "". Such a message is then the parent of every message whose In-Reply-To is empty or blank (`ChildOf`).
- **Last write wins.** A repeated Message-ID keeps its first position in the index, but the last message stored under it replaces the earlier ones (`LastWinsKeepsLast`).

Two branches of the code are never taken. First, the chain built for an
unvisited group member is never empty, so `if chain:` always passes
(`UnvisitedRoot`). Second, every group has at least one message, so every
emitted thread has at least one chain (`AssembleGroup`), even though the
code would also emit a thread with no chains.

## Model

| member | source | states |
|---|---|---|
| Subjects.StripMeaning | improved.py:27 | `str.strip` keeps one contiguous slice, removes only whitespace on either side of it, and leaves no whitespace at either end |
| Subjects.NormalizeSubjectMeaning | improved.py:26-27 | the key is a suffix of the stripped subject. Without a prefix it is the whole stripped subject. With a prefix, exactly the prefix and the blanks after it are removed. The key itself is stripped |
| Subjects.NormalizeTwice | improved.py:26-27 | normalising a key again changes it exactly when the key still starts with a prefix (only the outermost prefix is removed) |
| Subjects.NormalizeStackedReplies | improved.py:27 | "Re: Re: " + x normalises to "Re: " + x for any x with non-blank ends |
| Subjects.NormalizeBareSubject | improved.py:27 | a subject with no whitespace at either end and no `Re:`/`Fwd:`/`FW:` prefix is its own key |
| Subjects.NormalizeForward | improved.py:27 | an upper-case "FWD:" is removed as well: "FWD:" + x normalises to x |
| Subjects.NormalizeShortForward | improved.py:27 | "fw:" and the blanks after it are removed: "fw:  " + x normalises to x |
| Subjects.DetermineType | improved.py:30-39 | "reply" exactly when an In-Reply-To header exists or the lower-cased subject starts with "re:". "forward" exactly when neither holds and it starts with "fwd:" or "fw:". "new" exactly when there is no header and no prefix |
| Subjects.KindAgreesWithKey | improved.py:26-39 | for a subject with no leading blank and no In-Reply-To header, the message is "new" exactly when normalising leaves its stripped subject unchanged |
| Subjects.LeadingBlankHidesPrefix | improved.py:26-39 | " Re: " + x is classified "new", yet its key is x: the classification reads the raw subject and the key reads the stripped one |
| Subjects.ReplaceForbidden | improved.py:43 | same length. Each of `<>:"/\|?*` becomes `_`. Every other character is kept in place |
| Subjects.SafeFolderName | improved.py:42-43 | the length is the smaller of the input length and 50. No forbidden character remains. Each position keeps its character or holds `_` where a forbidden one was |
| Subjects.SafeFolderNameIdempotent | improved.py:42-43 | a folder-safe name is its own folder-safe name |
| MailIndex.LastWinsDomain | improved.py:120 | every fetched Message-ID is a key. Each key holds a fetched message with that id |
| MailIndex.LastWinsKeepsLast | improved.py:120 | the message kept under an id is the last one fetched with it |
| MailIndex.BuildIndexValid | improved.py:120 | the index lists each key once, its key list and its map agree, and each entry is stored under its own id |
| MailIndex.FirstSeenSubjectsGroups | improved.py:121 | each subject key is listed once, and a key is listed exactly when its group is not empty |
| MailIndex.GroupKeepsEveryCopy | improved.py:121 | a group holds only messages with its key, and each of them as many times as it was fetched |
| MailIndex.TracksOneMore | improved.py:120-121 | the two updates on lines 120-121 keep every stored structure equal to its specification function over the fetched messages |
| MailIndex.MessageStore.constructor | improved.py:52-53 | the store starts empty |
| MailIndex.MessageStore.Add | improved.py:120-121 | the map entry for the id is set, the key order and subject order grow only by new keys, the group of the message's key grows by the message, and the store still tracks the fetched messages |
| MailIndex.MessageStore.Snapshot | improved.py:120 | the stored dictionary is the index built from the fetched messages, and it is well formed |
| Threading.ClimbStaysAtRoot | improved.py:136-141 | once the walk stands on a message without an indexed parent, it stays there |
| Threading.MutualRepliesTrapWalk | improved.py:136-141 | on two messages that reply to each other (or one that replies to itself), the walk only visits those two, and each always has a parent |
| Threading.CycleBlocksWalk | improved.py:136-141 | on such a pair, the source's walk never ends |
| Threading.SelfReplyHangs | improved.py:136-141 | a message whose In-Reply-To is its own Message-ID makes the source's walk loop forever |
| Threading.WalkEndsIfEverEnds | improved.py:136-141 | if the walk ever reaches a root, it reaches it within as many steps as the index has keys |
| Threading.FindRoot | improved.py:135-141 | the walk as written: on inputs where it ends, the result has no indexed parent, is where the walk stands after index-size steps, and is indexed exactly when the start is |
| Threading.FindRootCapped | improved.py:135-141 | the walk with one step per index key at most: it always stops, and at the same message as `FindRoot` wherever that one stops |
| Threading.RepliesAmong | improved.py:155-158 | an id is among the replies exactly when it is one of the listed keys and its stripped In-Reply-To equals the stripped parent id |
| Threading.Replies | improved.py:155-158 | an id is a direct reply exactly when it is an index key whose stripped In-Reply-To equals the stripped parent id |
| Threading.CollectChain | improved.py:144-160 | the chain and the new `visited` are exactly what the queue loop computes (`BreadthFirst`: pop the front, skip a visited id, append the entry and then its direct replies in key order), so messages come in breadth-first order. Also: the chain holds index entries not visited before, each once. It starts at the root, and each later message replies to an earlier one. `visited` grows by exactly the chain's ids. The chain is empty exactly when the root was already visited. Every direct reply of a chain message ends up visited |
| Threading.ClimbBackIntoClosed | improved.py:135-159 | a set closed under direct replies that holds the end of a message's walk also holds the message |
| Threading.UnvisitedRoot | improved.py:162-165 | the walk from a message not yet visited in its group stops on a message not yet visited, so the chain built for an unvisited member is never empty and the test on line 165 always passes |
| Threading.ReplyAheadOfParent | improved.py:136-166 | for two messages where `b`, listed first, replies to `a` only by the stripped comparison and neither has an indexed parent, the group `[b, a]` gives the chains `[b]` and `[a]`, in that order |
| Threading.AssembleGroup | improved.py:130-169 | the chains are exactly those the group loop emits (`GroupLoop`): in member order, one for each member not yet visited, collected breadth-first from where its walk stops with the ids of the earlier chains as visited, and kept when not empty. Also: the group's chains are well formed and tagged "New Mail". Each opens where the walk from a group member stops. No id appears twice across them. Every group member appears. Every direct reply of an id that appears also appears. A non-empty group gets at least one chain |
| Threading.LinkThreads | improved.py:128-174 | one thread per subject key, in first-seen order, each carrying exactly the chains `GroupLoop` gives for its group, with the properties `AssembleGroup` states |
| Threading.GroupMembersIndexed | improved.py:120-121 | every message of a subject group was fetched, and its id is an index key |
| Threading.ThreadMessages | improved.py:120-174 | after storing every fetched message in order, the index is well formed and there is one thread per distinct subject key, in first-seen order, carrying exactly the chains `GroupLoop` gives for that key's group |

## Findings

| source | as written | input that shows it | evidently intended | confidence | as-written member | corrected member |
|---|---|---|---|---|---|---|
| improved.py:136-141 | the root walk follows In-Reply-To links with no bound and no visited check | a message whose In-Reply-To equals its own Message-ID, or two messages that reply to each other | the walk stops on every input, at the same root wherever the unbounded walk stops | high; not executed | Threading.CycleBlocksWalk | Threading.FindRootCapped |

`Threading.FindRoot` models the walk as written. Its precondition
`WalkEnds` holds exactly when the source's loop terminates
(`WalkEndsIfEverEnds`). `CycleBlocksWalk` and `SelfReplyHangs` name inputs
on which that loop never ends. The rest of the model (`AssembleGroup` and
everything above it) uses `FindRootCapped`, which needs no precondition.

## Left out

- IMAP login, mailbox selection, search and fetch, and the closing of the connection (improved.py:45-70, 124-125) are I/O. The model starts from the sequence of fetched messages, in fetch order.
- Reading `.env` and asking for the subject filter (improved.py:11-16) is environment and console input.
- `decode_mime_words` (improved.py:19-23) is MIME header decoding done by the standard library. Subjects, senders and file names are taken as already decoded strings.
- Body extraction and attachment saving (improved.py:86-106) are MIME walking and file writes. `SafeFolderName` models the folder name that is built there. The type, sender, recipient, date, body and attachment fields of a message are not modelled because the threading never reads them.
- The JSON export and the final message (improved.py:177-180) are file output. `Thread` and `Chain` carry the structure that is written.
- `app.py` is a separate script that extracts messages by subject into a CSV file (`extract_emails_by_subject`). It is not part of this model.
- Threading.AssembleGroup, Threading.LinkThreads, Threading.ThreadMessages: these use the bounded walk `FindRootCapped` instead of the script's unbounded one, so they return even on inputs where the script loops forever (a self-reply, or two messages replying to each other; see "Findings"). Wherever the script's walk stops, both walks stop on the same message (both equal `Climb` after index-size steps, by `WalkEndsIfEverEnds`), so the results agree. The non-termination itself is modelled only by `FindRoot`, `CycleBlocksWalk` and `SelfReplyHangs`.
- Subjects.DetermineType: lower-casing is modelled as an ASCII fold. No other character lower-cases to one of the prefix characters, but the model does not represent full Unicode lower-casing.
- Subjects.NormalizeSubject: the regular expression's `re.IGNORECASE` is modelled with the same ASCII fold. This agrees with Python for the ASCII prefix letters.
