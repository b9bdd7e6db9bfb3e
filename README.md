# WhatsApp order-approval bot, modelled in Dafny

The bot asks one or more people, over WhatsApp, to approve or reject a named order. It
reports each answer to a callback URL and forgets the order once everyone agrees. This
project models the core of `index.js` and proves what that code does. The core has four
parts:

- **Address normalisation** (`normalizeJid`): strips one leading `+`, rewrites a trailing
  `@c.us` or `@whatsapp.net` to `@s.whatsapp.net`, then trims. Modelled in `jid.dfy`,
  over the ASCII string helpers in `ascii.dfy`.
- **Command parsing**: picks the first non-blank text field of the message, upper-cases
  it and matches `^(APPROVE|REJECT)\s+(\S+)(?:\s+(.*))?$`. Modelled in `command.dfy`.
  The regular expression is written as a greedy scan, and a declarative `Layout`
  predicate is proved equivalent to it in both directions.
- **The reply engine** (the `messages.upsert` handler). It looks up the order and
  normalises the recipient keys. It refuses unknown orders, strangers and second
  answers. It records the vote on every key that normalises to the sender, confirms to
  the sender and posts the callback. Finally it settles the order (deletes it once all
  recipients said yes, or all said no) and saves. `orders.dfy` holds the recipient table
  and settlement. `approval.dfy` holds the engine as a function over the order store
  (`Reply`, `Handle`, `Batch`).
- **Order intake** (`POST /send-order`). It validates the request and requires an open
  session. For each recipient it builds the delivery key and sends the message, then the
  identity, flight-ticket and hotel-ticket images (each skipped when empty, classified as
  URL or inline base64). Only when every send went through does it register the order as
  pending and save. Modelled in `intake.dfy`.

`bot.dfy` is the running bot as a class `OrderBot`. Its fields are `orders` (the
`pendingOrders` map), `outbox` (every message sent and callback posted, in order),
`persisted` (what `orders.json` holds) and `isConnected`. Its methods perform the
source's loops step by step: the key normalisation `reduce`, the write-back loop, the
upsert loop and the nested send loops of intake. Each method is proved to produce
exactly the state that the functional model prescribes.

The outside world is handled as follows:

- A send attempt that throws is given as a parameter: `sendOk` per message for replies,
  and `failAt` (the number of the failing send attempt) for intake.
- Sends and callback posts are appended to the outbox.
- Saving sets `persisted := orders`.

The recipient table of an order is an association list `seq<Entry>` in key-insertion
order, as a JavaScript object keeps it. The `reduce` at index.js:160-163 is therefore
"last key wins", exactly as in the source. A JavaScript object lists array-index keys
first and its `in` test also finds inherited keys such as `toString`; every key the bot
builds or looks up contains `@`, so neither difference can arise here.

The model follows the code, including these behaviours a reader might not expect:

- The whole text is upper-cased before matching, so order ids and reasons come out upper
  case. `REJECT INV-2 wrong dates` reports the reason `WRONG DATES`.
  An order registered with a lower-case id can never be answered
  (`Approval.LowerCaseIdUnreachable`).
- `normalizeJid` is not idempotent. `++1` gives `+1` and then `1`. `1@c.us ` (with a
  trailing space) keeps its `@c.us` on the first pass, because the `$` anchor sees the
  space; the second pass rewrites it. Idempotence is proved only for inputs that avoid
  both shapes (`Jid.NormalizeIdempotent`).
- The callback `status` is `order.recipients[from] ?? normalizedRecipients[from]`. It
  differs from the vote just recorded when the sender's own address is also a key that
  normalises elsewhere (`Approval.CallbackReportsOtherKey` and its concrete example).
- A reason is captured for APPROVE as well as for REJECT.

## Model

| member | source | states |
|---|---|---|
| Ascii.StartsWithPrefix | index.js:289-291 | `startsWith` holds exactly when the pattern is a prefix of the text |
| Ascii.SpaceRun | index.js:141 | what a greedy `\s+` consumes: an all-whitespace prefix that stops before a non-space character or at the end |
| Ascii.WordRun | index.js:141 | what a greedy `\S+` consumes: a whitespace-free prefix that stops before whitespace or at the end |
| Ascii.Trim | index.js:125 | `trim` leaves a text with no whitespace at either end and never lengthens it |
| Ascii.TrimExact | index.js:125 | `trim` removes exactly the surrounding whitespace and keeps the trimmed middle intact |
| Ascii.TrimIdempotent | index.js:132-134 | trimming twice is trimming once |
| Ascii.Upper | index.js:137 | `toUpperCase` keeps the length, leaves no lower-case letter and keeps whitespace and line breaks where they were |
| Ascii.UpperConcat | index.js:137 | upper-casing distributes over concatenation |
| Jid.NormalizeJid | index.js:120-125 | the normalised address never has whitespace at either end |
| Jid.NormalizeCanonical | index.js:120-125 | an address without a leading `+`, without surrounding whitespace and without a foreign suffix is returned unchanged |
| Jid.NormalizeIdempotent | index.js:120-125 | when the text after the first `+` is trimmed and starts with no second `+`, the result is canonical, so a second pass changes nothing |
| Jid.StripPlus | index.js:122 | `replace(/^(\+)?/, "")`: drops one leading `+`; characterised by `Jid.NotIdempotentOnDoublePlus`, `Jid.SameRecipient` and `Jid.NormalizeCanonical` |
| Jid.ReplaceSuffix | index.js:123-124 | an anchored `replace(/<suffix>$/, …)`: rewrites the suffix only at the very end; characterised by `Jid.SpaceHidesSuffix` and `Jid.NotIdempotentOnTrailingSpace` |
| Jid.RewriteSuffixes | index.js:123-124 | the `@c.us` rewrite, then the `@whatsapp.net` one; characterised by `Jid.SameRecipient` and `Jid.NormalizeCanonical` |
| Jid.NotIdempotentOnDoublePlus | index.js:122 | `++1` normalises to `+1`, and that to `1` |
| Jid.NotIdempotentOnTrailingSpace | index.js:123-125 | `p@c.us` plus trailing whitespace keeps `@c.us` on the first pass and becomes `p@s.whatsapp.net` on the second |
| Jid.SpaceHidesSuffix | index.js:123-125 | trailing whitespace hides a suffix from the anchored rewrite; the trim then removes only the whitespace |
| Jid.SameRecipient | index.js:120-125 | `p`, with or without a leading `+`, and with any of the three suffixes, normalises to `p@s.whatsapp.net` |
| Jid.DeliveryJid | index.js:277 | a recipient that already contains `@s.whatsapp.net` is its own key; any other gets `@s.whatsapp.net` appended; the key always contains it |
| Jid.DeliveryJidIdempotent | index.js:277 | building the key from a key gives the key back |
| Jid.DeliveryJidOfPhone | index.js:277 | a phone number, with or without a `+`, gets the key number + `@s.whatsapp.net`, which normalises to the sender address `number@s.whatsapp.net` |
| Jid.UserAddressNormal | index.js:120-125 | a sender address `number@s.whatsapp.net` is already in normal form |
| Jid.CleanNumber | index.js:194 | `replace(/@.*$/, "")` cuts a prefix off at the first `@` whose remainder has no line break; no earlier `@` qualifies |
| Jid.CleanNumberOfAddress | index.js:194 | on a single-line address `user@host` whose user part holds no `@`, the result is the user part |
| Command.MatchComplete | index.js:141 | every text laid out as keyword, whitespace, order id and optional whitespace plus single-line remainder is matched, with exactly those parts as groups |
| Command.MatchSound | index.js:141 | every match comes from a text laid out that way |
| Command.KeywordSound | index.js:141 | a match after either keyword comes from a text laid out by the grammar |
| Command.AfterSound | index.js:141 | a match after the keyword splits the text into whitespace, a non-empty token and an optional whitespace-led single-line remainder |
| Command.MatchIff | index.js:141 | a text is matched with groups `m` if and only if it is laid out as `m` |
| Command.MessageText | index.js:131-135 | the chosen text is trimmed; it is empty iff all three fields are blank or absent; the first non-blank of conversation, extended text and image caption, in that order, is taken |
| Command.MatchCommand | index.js:141 | `upperText.match(…)` as a greedy scan after either keyword; characterised in both directions by `Command.MatchIff`, `Command.MatchComplete`, `Command.MatchSound` and `Command.KeywordSound` |
| Command.MatchAfter | index.js:141 | the `\s+(\S+)(?:\s+(.*))?$` part after the keyword; characterised by `Command.AfterSound` |
| Command.ReasonOf | index.js:149 | a reason, when there is one, is non-empty and trimmed; no third group means no reason |
| Command.ParseAccepts | index.js:131-149 | a message is accepted with intent (action, id, remainder) iff its trimmed, upper-cased text is laid out by the grammar with those parts |
| Command.CommandText | index.js:131-137 | the chosen text, upper-cased; characterised by `Command.TextTrimmed` and `Command.ParseAccepts` |
| Command.ParseCommand | index.js:131-149 | the intent of a message, or none; characterised by `Command.ParseAccepts`, `Command.IntentIsUpper`, `Command.GreetingIgnored` and `Command.BlankIgnored` |
| Command.TextTrimmed | index.js:131-137 | the upper-cased text is still trimmed |
| Command.ReasonOfLayout | index.js:141-149 | on a trimmed text a present remainder is already non-empty and trimmed, so it is the reason verbatim |
| Command.IntentIsUpper | index.js:137-149 | the order id is a non-empty single token; id and reason contain no lower-case letter |
| Command.ApproveCarriesReason | index.js:141-149 | `approve <id> <reason>` in any letter case yields APPROVE with the upper-cased id and the upper-cased reason |
| Command.GreetingIgnored | index.js:141-145 | a text outside the grammar (`HELLO`) is not a command |
| Command.BlankIgnored | index.js:135-138 | a message whose text fields are all blank is not a command |
| Orders.Get | index.js:200 | reading `recipients[k]` finds a value iff `k` is a key |
| Orders.GetAt | index.js:200 | with distinct keys, reading the key of entry `i` gives entry `i`'s answer |
| Orders.Put | index.js:278 | `recipients[k] = a` on the association list; characterised by `Orders.PutSpec`, `Orders.PutDistinct` and `Orders.PutUnanswered` |
| Orders.PutSpec | index.js:278 | assigning `recipients[k] = a` keeps the key order (a new key goes last), stores `a` under `k` and leaves every other key alone |
| Orders.PutDistinct | index.js:278 | assignment keeps the keys distinct |
| Orders.PutUnanswered | index.js:278 | assigning `null` to a table with no answers leaves a table with no answers |
| Orders.Renamed | index.js:160-161 | every key replaced by its normal form, answers and order kept |
| Orders.Collect | index.js:160-163 | the object the `reduce` builds, assigning entries in order; characterised by `Orders.CollectKeys` and `Orders.NormalizedStep` |
| Orders.Normalized | index.js:160-163 | `normalizedRecipients`; characterised by `Orders.NormalizedKeys`, `Orders.IsRecipientIff` and `Orders.NormalizedCoherent` |
| Orders.CollectKeys | index.js:160-163 | the object built by the `reduce` has exactly the entries' keys, each with the answer of one of its entries |
| Orders.NormalizedStep | index.js:160-163 | reducing one more key assigns its normalised form last: the later of two colliding keys wins |
| Orders.NormalizedKeys | index.js:160-163 | the normalised table has exactly the normalised keys, each with the answer of some key that normalises to it |
| Orders.IsRecipientIff | index.js:165 | `from in normalizedRecipients` iff some key normalises to `from` |
| Orders.NormalizedCoherent | index.js:160-163 | on a table where keys that normalise alike agree, each key's normalised entry is its own answer, whatever the key order |
| Orders.WriteBack | index.js:188-191 | each key receives the answer of its normal form; characterised by `Orders.WriteBackSpec` and `Bot.WriteBackAnswers` |
| Orders.WriteBackSpec | index.js:188-191 | the write-back keeps keys and order, leaves keys that normalise alike agreeing, and the normalised view then equals the answers written |
| Orders.Settlement | index.js:209-227 | approved, rejected or pending from the three `every` tests; characterised by `Orders.SettlementIff` |
| Orders.SettlementIff | index.js:209-227 | a non-empty table stays pending iff someone has not answered or the answers are mixed; approved iff all said yes; rejected iff all said no |
| Approval.RecordAnswer | index.js:177-191 | the vote into the normalised table, then written back; characterised by `Approval.RecordAnswerSpec`, `Approval.RecordKeepsOthers`, `Approval.RecordAnswerSettled` and `Approval.RecordInjective` |
| Approval.CallbackStatus | index.js:200 | `recipients[from] ?? normalizedRecipients[from]`, the second being the vote just recorded; characterised by `Approval.CallbackStatusIsVote` and `Approval.CallbackReportsOtherKey` |
| Approval.RecordAnswerSpec | index.js:177-191 | recording keeps the keys and their order and gives the vote to every key that normalises to the sender |
| Approval.RecordKeepsOthers | index.js:188-191 | on a table where keys that normalise alike agree, every other key keeps its answer |
| Approval.RecordAnswerSettled | index.js:177-191 | after recording, keys that normalise alike agree and the sender's normalised entry is the vote |
| Approval.RecordInjective | index.js:188-191 | when no two keys normalise alike, only the sender's key changes |
| Approval.Reply | index.js:152-229 | the engine for a parsed command from the normalised sender; characterised by `Approval.UnknownOrder`, `Approval.NotARecipientSilent`, `Approval.AnsweredOnlyNotified`, `Approval.RecordedSpec`, `Approval.ReplyFrame` and `Approval.OnlyRecordingChanges` |
| Approval.Handle | index.js:117-229 | one message of a batch; characterised by `Approval.SkippedIff`, `Approval.HandlePreservesValid` and `Approval.OnlyRecordingChangesAfterHandle` |
| Approval.SkippedIff | index.js:117-145 | a message is skipped iff it has no content, is the bot's own, or its text is not a command; a skipped message changes, sends and saves nothing |
| Approval.OnlyRecordingChanges | index.js:152-229 | every path that records nothing leaves the store as it was and unsaved; a send throws iff it fails on a path that sends |
| Approval.UnknownOrder | index.js:152-157 | an unknown order id sends exactly one not-found message to the sender and changes and saves nothing |
| Approval.NotARecipientSilent | index.js:165-168 | a sender that no key normalises to causes nothing at all |
| Approval.AnsweredOnlyNotified | index.js:170-174 | a sender whose entry is already answered gets only the already-responded notice; the order is unchanged |
| Approval.RecordedSpec | index.js:177-229 | an accepted reply confirms first, posts the callback iff the URL is truthy (with the cleaned number, the reported status and the reason), saves, touches no other order and removes the order iff it is settled |
| Approval.ReplyFrame | index.js:152-229 | a reply never touches an order with another id |
| Approval.SecondReplyKeepsFirst | index.js:170-174 | a second reply from the same sender never overwrites the first: already-responded, or not-found once settled, and nothing is saved |
| Approval.SettledThenNotFound | index.js:217-224 | once an order is settled, every later reply to it takes the not-found path |
| Approval.CallbackStatusIsVote | index.js:200 | the callback reports the vote just recorded when the sender is not itself a key, or is one in normal form |
| Approval.CallbackReportsOtherKey | index.js:200 | when the sender's address is itself a key that normalises elsewhere, the callback reports the answer stored under that other normal form (the vote if it is unanswered), on any table with distinct keys |
| Approval.CallbackReportsOtherKeyExample | index.js:200 | concretely: an APPROVE from `+1` on keys `++1` (unanswered) and `+1` (no) reports "no" |
| Approval.ReplyPreservesValid | index.js:152-229 | every order in the store stays pending, with distinct keys that agree when they normalise alike, and unsettled |
| Approval.HandlePreservesValid | index.js:117-229 | handling any message keeps the store valid |
| Approval.LowerCaseIdUnreachable | index.js:137-152 | no message changes an order whose id contains a lower-case letter |
| Approval.ThrowSavesNothing | index.js:154-185 | a message whose send throws leaves the store as it was and unsaved |
| Approval.BatchWith | index.js:115-231 | the loop over a batch with a given per-message handler, ending at the first throw |
| Approval.Batch | index.js:115-231 | the `messages.upsert` handler over a batch; characterised by `Approval.BatchPreservesValid`, `Approval.BatchSaved` and `Bot.OrderBot.HandleUpsert` |
| Approval.BatchPreservesValid | index.js:116-229 | a whole batch keeps the store, and what it saves, valid |
| Approval.BatchSaved | index.js:116-229 | with every send succeeding, a batch never throws, and the saved store equals the store in memory |
| Approval.OnlyRecordingChangesAfterHandle | index.js:117-229 | a message changes the store only when it also saves it; with a working transport it never throws |
| Intake.StatusCode | index.js:262-267 | the response is 400 exactly for an invalid request and 500 for every other failure |
| Intake.FirstField | index.js:292 | the text before the first comma, or all of it when there is none |
| Intake.SecondField | index.js:292 | `split(",")[1]` is absent iff there is no comma; otherwise it is the text after the first comma up to the next comma or the end |
| Intake.ClassifyImage | index.js:289-297 | the image payload of one attachment value; characterised by `Intake.ClassifyImageSpec` and `Intake.InlineRoundTrip` |
| Intake.ClassifyImageSpec | index.js:289-297 | a value is sent as a URL unless it is a `data:image` value not starting with `http`; such a value fails exactly when it has no comma, else it is inline with the text after the first comma |
| Intake.InlineRoundTrip | index.js:291-293 | a data URL `<header>,<base64>` gives back exactly its base64 text |
| Intake.Script | index.js:276-303 | the sends the nested loops attempt, recipient by recipient; characterised by `Intake.AttachmentOrder`, `Intake.RecipientOpsShape` and `Intake.RecipientsRunAgrees` |
| Intake.AttachmentOrder | index.js:270-285 | the attachments go identity, flight ticket, hotel ticket, each skipped when empty; with all three empty, nothing is sent after the message |
| Intake.RecipientOpsShape | index.js:276-303 | each recipient gets the message to its key first, then its attachments |
| Intake.Execute | index.js:276-303 | running a script until the first throw; characterised by `Intake.ExecuteSpec` and `Intake.ExecuteAppend` |
| Intake.ExecuteSpec | index.js:276-303 | a run sends a prefix of the script's sends in order; it fails iff the script has an undecodable image or the failing attempt lies inside it; on success it sent everything |
| Intake.ExecuteAppend | index.js:276-303 | running two scripts in a row: the second starts where the first stopped, unless the first failed |
| Intake.ChainSnoc | index.js:276-303 | a loop that stops at the first failure, run on one more element, runs that element only if everything before went through |
| Intake.ChainStops | index.js:276-303 | once such a loop has failed, later elements are never run |
| Intake.ChainNext | index.js:276-303 | one turn of such a loop: if element `i` fails, the loop is over with that failure, otherwise `i + 1` elements are through |
| Intake.FieldsNext | index.js:284-303 | one turn of the attachment loop, stated over the loop's own run |
| Intake.RecipientsNext | index.js:276-304 | one turn of the recipient loop, stated over the loop's own run |
| Intake.FieldRunAgrees | index.js:285-302 | one attachment, as the loop handles it, is its script step run |
| Intake.FieldsRunAgrees | index.js:284-303 | the attachment loop is the attachments' script, run |
| Intake.DeliverRunAgrees | index.js:281-303 | one recipient's turn is that recipient's script, run |
| Intake.RecipientsRunAgrees | index.js:276-304 | the nested loops run exactly the script of the whole request |
| Intake.KeyEntries | index.js:276-278 | `recipientsStatus` after the loop; characterised by `Intake.KeyEntriesSpec` and `Intake.NewOrderValid` |
| Intake.KeyEntriesSpec | index.js:276-278 | the keys are distinct and unanswered; there is one per distinct delivery address and no other; never more keys than recipients |
| Intake.NewOrderValid | index.js:307-311 | a freshly registered order is pending, with distinct unanswered keys, and not settled |
| Intake.ValidRequest | index.js:262 | `orderId`, `recipients` and `message` all truthy; characterised by `Intake.InvalidRequestRefused` |
| Intake.SendOrder | index.js:259-319 | the whole `/send-order` handler; characterised by `Intake.SendOrderAtomic`, `Intake.SendOrderSucceedsIff`, `Intake.SendOrderPreservesValid` and `Intake.DisconnectedRefused` |
| Intake.InvalidRequestRefused | index.js:262-263 | a request is refused with 400 iff it lacks order id, recipients or message, and then nothing is sent or stored |
| Intake.DisconnectedRefused | index.js:266-267 | a valid request while disconnected is refused with 500 before anything is sent or stored |
| Intake.SendOrderAtomic | index.js:276-317 | the store changes only on success, and then exactly by putting the new pending order (overwriting the same id) and saving |
| Intake.SendOrderSucceedsIff | index.js:276-314 | a valid request on an open session succeeds iff no image fails to decode and no send throws; the sends made are the script's steps in order, all of them on success |
| Intake.SendOrderPreservesValid | index.js:259-317 | intake keeps every order in the store valid |
| Bot.NormalizeRecipients | index.js:160-163 | the `reduce` loop computes exactly the normalised table |
| Bot.WriteBackAnswers | index.js:188-191 | the write-back loop gives every key the answer of its normalised form |
| Bot.AddKey | index.js:277-278 | `recipientsStatus[jid] = null` extends the keys of the first `i` recipients to those of the first `i + 1` |
| Bot.OrderBot.constructor | index.js:36-48 | start-up loads the saved orders; nothing is sent yet and the session is closed |
| Bot.OrderBot.SetConnected | index.js:93-101 | the session flag follows the connection updates and nothing else changes |
| Bot.OrderBot.SaveOrders | index.js:50-53 | the saved file equals the map |
| Bot.OrderBot.HandleMessage | index.js:117-229 | the map, the sends, the saved file and the throw are exactly those of the engine, and validity is kept |
| Bot.OrderBot.Respond | index.js:152-229 | for a parsed command, the new state is the reply engine's |
| Bot.OrderBot.Notify | index.js:153-156 | the notice is sent to the sender, or the send throws |
| Bot.OrderBot.Record | index.js:177-229 | records, confirms, writes back, calls back, settles and saves exactly as the engine prescribes |
| Bot.OrderBot.PostCallback | index.js:194-207 | the callback is posted iff the order has a truthy URL; nothing else changes |
| Bot.OrderBot.HandleUpsert | index.js:115-231 | a whole batch: messages handled in order, a throw abandons the rest, and the final state is the batch model's; validity is kept |
| Bot.OrderBot.SendOrder | index.js:259-319 | every branch matches the intake model: response, sends, map and saved file; validity is kept |
| Bot.OrderBot.Broadcast | index.js:276-304 | the recipient loop: its sends and failure are the recipients' run; on success the status table is the key table |
| Bot.OrderBot.Visit | index.js:277-303 | one recipient turn moves the loop's run on by one recipient, or ends it with the failure |
| Bot.OrderBot.Deliver | index.js:281-303 | the message, then the attachments, as that recipient's run |
| Bot.OrderBot.SendAttachments | index.js:284-303 | the attachment loop's sends and failure are the attachments' run |
| Bot.OrderBot.SendAttachment | index.js:285-302 | an empty field is skipped, an undecodable one throws, any other is sent unless its attempt throws |
| Bot.OrderBot.Transmit | index.js:299-302 | a send goes out iff its attempt is not the failing one |

## Left out

- The connection lifecycle is reduced to the `isConnected` flag: the socket, QR code,
  reconnect timer and auth-folder deletion (index.js:62-113, 238).
- HTTP and UI wiring are not modelled: Express middleware, the API-key check, the `/send`,
  `/status` and `/logout` routes, static files and socket.io events (index.js:12-33,
  243-256, 320-348).
- File I/O is reduced to the `persisted` field. Reading, parsing and writing `orders.json`
  (index.js:36-53) become "load the saved map" and "saved map := map". A corrupt file is
  not modelled.
- Foreign calls are recorded as outbox effects: `sock.sendMessage`, `axios.post` and
  `Buffer.from(…, "base64")`. Whether a send throws comes from the `sendOk` and `failAt`
  parameters. A failed callback is swallowed in the source, so it has no failure input.
- Base64 decoding itself is not modelled. An inline image is its base64 text. When the
  data URL has no comma, `Buffer.from(undefined)` throws; this is modelled as the failure.
- Async interleaving is not modelled: each handler runs as one atomic sequential step.
- Console logging is not modelled.
- Unicode is not modelled: whitespace, line breaks and upper-casing are their ASCII
  subsets, and messages are sequences of characters.
- An absent `remoteJid` (the `?.` chain yielding `undefined`) is not modelled: sender
  addresses are strings.
- Intake classifies each attachment once, before the send loops, rather than at each
  recipient. The classifier is pure, so the sends and the position of the first failure
  are unchanged.
- Request bodies are typed. A field is present or absent, `recipients` is a list of
  strings, and the other fields are strings, so JavaScript truthiness is "present and
  non-empty". Other JSON types (numbers, objects, a non-array `recipients`) are not
  modelled.
