# Notification center and toast filter, modelled in Dafny

This project models the core of a small ASP.NET notification system.
Code posts a notification to a category. The notification center fans the
post out to every registered handler that lists that category, comparing
names ignoring case. The toast handler queues each notification. When the
page is rendered, it drains the queue into a `<script>` of `toastr[...]`
calls. A response filter (`ToastFilter`) streams the page through. It
splices the script in front of the last closing `</body>` tag of the
document, however the page is split into chunks.

Modules:

- `Ascii` (`ascii.dfy`): ASCII case folding. It serves as the ignore-case
  regex, `ToLowerInvariant` and `InvariantCultureIgnoreCase`.
- `Wrappers` (`wrappers.dfy`): `Option`.
- `BodyTag` (`body_tag.dfy`): the `</body>` constant. It also holds the
  right-to-left, ignore-case search for the tag and the replacement of its
  last occurrence.
- `ToastFilter` (`toast_filter.dfy`): the filter state, which is the text
  written to the output stream plus the withheld text. It defines `Write`
  and `Flush`, and proves that the result does not depend on chunking.
- `Notifications` (`notification.dfy`): the notification record, with its
  type and message.
- `ToastHandler` (`toast_handler.dfy`): the FIFO queue (`Push`) and the
  script renderer (`GetCode`), plus a reader that parses a script back into
  its calls.
- `NotificationCenter` (`notification_center.dfy`): selecting handlers by
  category and pushing to each selected handler in registry order.
- `ToastApp` (`toast_app.dfy`): the toast handler registered with the
  center. A post to its category lands in its queue and comes back out of
  the rendered script.

The central filter result is that a state reachable by writing a document
in any chunks is a function of the document alone (`Canonical`). Hence
`WriteAll(Init, cs) == Write(Init, Flatten(cs))`. A tag cut across chunks
is always reassembled. The withheld margin of 10 characters exceeds the 6
characters of a cut tag that can end a chunk. The tag cannot overlap itself
(`BodyTag.NoOverlap`).

Behaviour of the code that a reader might not expect, which the model
reproduces:

- `Flush` writes the withheld text but never clears it
  (`ToastFilter.cs:229-250`). A second `Flush` writes it again, rewritten
  with whatever the injectors return then (`ToastFilter.FlushRepeatsTail`).
  The toast handler's queue is drained by then, so that second splice is
  `<script></script>`. A `Write` after a `Flush` also puts the withheld
  text in front of its chunk again, so that text reaches the output twice
  (`ToastFilter.WriteAfterFlushRepeatsPending`).
- The replacement writes a lower-case `</body>`, so an upper-case
  `</BODY>` comes out lower-cased. This happens only when at least one
  injector runs. With no injectors, the replacement loop does nothing and
  the tag is written as found (`ToastFilter.cs:235-239`).
- A notification's type is lower-cased but not escaped. A type that
  contains a single quote breaks the generated script
  (`ToastHandler.QuoteInTypeBreaksScript`).
- The script reader used for the round trip (`ToastHandler.ParseScript`)
  only splits the text at quotes. It is not how a browser reads the page.
  The round trip therefore does not make messages safe. A message holding
  `</script>` ends the script element in a real page. A message ending in
  a backslash, or holding a line break, breaks the JavaScript string. Such
  messages still round-trip through the reader.
- Any failure while the center selects handlers makes the post answer
  `false` with no push performed, even if the failing handler comes after
  subscribers. This is because the selection (`ToList`) completes before
  the first push. A failure inside a push is swallowed.

## Model

| member | source | states |
|---|---|---|
| `BodyTag.LastMatchBelow` | NotificationCenterWebApp/NotificationHandlers/ToastFilter.cs:55 | scanning right to left from a bound finds the highest start below it where the tag matches ignoring case, or reports that there is none |
| `BodyTag.Rightmost` | NotificationCenterWebApp/NotificationHandlers/ToastFilter.cs:195-196 | the right-to-left match succeeds exactly when the tag occurs, and then returns its last occurrence |
| `BodyTag.ReplaceRightmost` | NotificationCenterWebApp/NotificationHandlers/ToastFilter.cs:238 | replacing once with the right-to-left regex swaps exactly the last occurrence for the replacement and keeps the rest; without an occurrence the text is unchanged |
| `BodyTag.NoOverlap` | NotificationCenterWebApp/NotificationHandlers/ToastFilter.cs:17 | two occurrences of `</body>` never overlap |
| `BodyTag.SpliceKeepsRightmost` | NotificationCenterWebApp/NotificationHandlers/ToastFilter.cs:235-239 | after a snippet plus a lower-case tag replaces the last tag, the new tag is the last one, so the next injector splices right after the previous snippet |
| `ToastFilter.Write` | NotificationCenterWebApp/NotificationHandlers/ToastFilter.cs:186-221 | the output only grows and no text is lost or reordered. With a tag, exactly the text before the last tag is written and the withheld text starts at that tag with no later one. Without a tag, 10 characters or fewer are all withheld, and a longer text keeps exactly 10 |
| `ToastFilter.Flush` | NotificationCenterWebApp/NotificationHandlers/ToastFilter.cs:227-251 | the withheld text stays. Empty withheld text writes nothing. Without a tag or without snippets, the withheld text is written unchanged. Otherwise it is written with all snippets in order and a lower-case tag in place of its last tag |
| `ToastFilter.InjectAllSplices` | NotificationCenterWebApp/NotificationHandlers/ToastFilter.cs:233-240 | the per-injector replacement loop amounts to one splice of all snippets, in injector order, in front of the last tag |
| `ToastFilter.Canonical` | NotificationCenterWebApp/NotificationHandlers/ToastFilter.cs:174-180 | the state for a document written so far: written and withheld text make up the document. The output ends right before the last tag; without a tag, up to 10 characters are withheld |
| `ToastFilter.WriteFromCanonical` | NotificationCenterWebApp/NotificationHandlers/ToastFilter.cs:178-180 | writing a chunk from the state of a document reaches the state of the document extended by the chunk. A tag cut across the chunk boundary is reassembled, and an earlier tag is abandoned for a later one |
| `ToastFilter.Conservation` | NotificationCenterWebApp/NotificationHandlers/ToastFilter.cs:188-221 | after any run of writes, the written text followed by the withheld text is the old such text followed by every chunk in order, and the written text only grew |
| `ToastFilter.ReachableState` | NotificationCenterWebApp/NotificationHandlers/ToastFilter.cs:174-185 | after writing a document in any chunks, the output stops right before the document's last tag and the withheld text starts with it. While no tag has been seen, at most 10 characters are withheld, and exactly 10 once the document is that long |
| `ToastFilter.ChunkingIndependence` | NotificationCenterWebApp/NotificationHandlers/ToastFilter.cs:174-185 | writing a document in any chunks leaves the filter in the same state as writing it in a single call |
| `ToastFilter.FlushCanonical` | NotificationCenterWebApp/NotificationHandlers/ToastFilter.cs:229-247 | flushing the state of a document writes out the rest of the document, with the snippets spliced in front of its last tag when there is one and there are snippets |
| `ToastFilter.RenderedDocument` | NotificationCenterWebApp/NotificationHandlers/ToastFilter.cs:186-251 | the whole response for a document in any chunks is the document with all snippets and a lower-case tag in place of its last tag; it is the document unchanged when there is no tag or no snippet |
| `ToastFilter.FlushRepeatsTail` | NotificationCenterWebApp/NotificationHandlers/ToastFilter.cs:229-250 | since `Flush` does not clear the withheld text, a second flush writes the withheld text again, rewritten with the snippets the injectors give at that flush |
| `ToastFilter.WriteAfterFlushRepeatsPending` | NotificationCenterWebApp/NotificationHandlers/ToastFilter.cs:189-192 | a write after a flush puts the withheld text, not cleared by the flush, in front of the chunk again; without a tag in it, that text is written to the output a second time |
| `ToastHandler.Push` | NotificationCenterWebApp/NotificationHandlers/ToastNotificationHandler.cs:76-84 | a null notification is refused and the queue is unchanged; any other is accepted and appended at the tail |
| `ToastHandler.PushAllAppends` | NotificationCenterWebApp/NotificationHandlers/ToastNotificationHandler.cs:78-81 | a run of pushes appends the non-null notifications to the queue in push order |
| `ToastHandler.EscapeQuotes` | NotificationCenterWebApp/NotificationHandlers/ToastNotificationHandler.cs:98 | the escaped message has the same length, no double quote, every double quote turned into a single quote, and every other character kept |
| `ToastHandler.GetCode` | NotificationCenterWebApp/NotificationHandlers/ToastNotificationHandler.cs:90-101 | the queue is drained. The code starts with `<script>`, ends with `</script>`, and holds one toastr call per queued notification in queue order. An empty queue gives exactly `<script></script>` |
| `ToastHandler.PushesRenderInOrder` | NotificationCenterWebApp/NotificationHandlers/ToastNotificationHandler.cs:95-99 | after pushes onto an empty queue, the script holds one call per non-null notification in push order |
| `ToastHandler.PushRendersLast` | NotificationCenterWebApp/NotificationHandlers/ToastNotificationHandler.cs:95-99 | a newly pushed notification is rendered after every notification already queued |
| `ToastHandler.ScriptRoundTrip` | NotificationCenterWebApp/NotificationHandlers/ToastNotificationHandler.cs:92-100 | the rendered script parses back into the lower-cased types and escaped messages of the queued notifications, one call each, in queue order |
| `ToastHandler.QuoteInTypeBreaksScript` | NotificationCenterWebApp/NotificationHandlers/ToastNotificationHandler.cs:97-98 | a type holding a single quote is not escaped, and the script for it no longer parses |
| `NotificationCenter.AnyCategory` | Notifications/NotificationCenter.cs:65 | true exactly when some listed category equals the posted one ignoring case |
| `NotificationCenter.SubscribesIffLowerEqual` | Notifications/NotificationCenter.cs:65 | a handler is selected exactly when one of its categories and the posted category lower-case to the same string |
| `NotificationCenter.SelectFrom` | Notifications/NotificationCenter.cs:65 | selection fails exactly when some entry cannot be constructed. Otherwise it lists, strictly increasing, exactly the entries whose handler subscribes |
| `NotificationCenter.PushEach` | Notifications/NotificationCenter.cs:66-77 | every selected handler is pushed once, in selection order, whatever earlier pushes did, and each push's outcome is recorded |
| `NotificationCenter.Post` | Notifications/NotificationCenter.cs:61-90 | the answer is true exactly when every entry can be constructed, and false comes with no push. Only subscribing handlers are pushed, in registry order, each once, and every subscriber is pushed when the answer is true |
| `NotificationCenter.OutcomesIgnored` | Notifications/NotificationCenter.cs:66-78 | the answer and the handlers pushed do not depend on whether pushes succeed, refuse or throw |
| `NotificationCenter.NoSubscriber` | Notifications/NotificationCenter.cs:65-78 | a post no handler subscribes to answers true and pushes nothing |
| `NotificationCenter.BrokenEntry` | Notifications/NotificationCenter.cs:80-89 | a registry entry that fails to construct makes the post answer false without pushing |
| `ToastApp.ToastSubscribes` | NotificationCenterWebApp/NotificationHandlers/ToastNotificationHandler.cs:29-38 | the toast handler takes exactly the posts whose category is `NOTIFICATION` in any letter case |
| `ToastApp.ToastReached` | Notifications/NotificationCenter.cs:65-78 | a center holding the toast handler answers true and pushes to it exactly for its category |
| `ToastApp.PostToToast` | Notifications/NotificationCenter.cs:61-90 | a post through the center appends a non-null notification to the toast queue exactly when its category is the handler's, and otherwise leaves the queue alone |
| `ToastApp.PostAllQueues` | Notifications/NotificationCenter.cs:66-71 | posts to the toast category queue up in posting order, and posts to any other category leave the queue unchanged |
| `ToastApp.PostedThenRendered` | NotificationCenterWebApp/Controllers/HomeController.cs:15-18 | notifications posted to `NOTIFICATION` come back out of the rendered script in posting order |

## Left out

- Byte encoding. Chunks are already-decoded text and the output stream is
  the text written to it (`ContentEncoding.GetString`/`GetBytes`,
  `ToastFilter.cs:186, 259`). A multi-byte character cut across chunks is
  outside the model.
- The stream members that only delegate to the inner stream
  (`ToastFilter.cs:62-150`). The call to the inner stream's `Flush`
  (`ToastFilter.cs:250`) is also left out, since it only forwards.
- The log warning for a page without a tag. It exists only as a comment.
- The regex engine. The search is a literal, ASCII case-insensitive
  search for `</body>`. The `$` substitutions that `Regex.Replace` would
  apply to a snippet are not modelled; snippets are literal text.
- Case folding beyond ASCII, for the invariant culture's lower-casing and
  ignore-case comparison.
- UTF-16. A character here is a Unicode scalar value, while .NET's
  `Length` and `Substring` count UTF-16 code units
  (`ToastFilter.cs:210, 218-219`). For text outside the Basic Multilingual
  Plane, such as emoji, the 10-character margin and the split points
  therefore differ from the program. The program can also cut a surrogate
  pair at the margin. `GetBytes` then writes each lone half as U+FFFD
  (`ToastFilter.cs:259`), so for such text the program loses characters
  that the model's conservation result keeps.
- Linguistic comparison. `InvariantCultureIgnoreCase`
  (`NotificationCenter.cs:65`) is a culture-aware comparison, not only case
  folding. It ignores characters such as the soft hyphen U+00AD, so two
  strings of different lengths can compare equal. `EqualsIgnoreCase`
  demands equal lengths and compares ASCII-folded characters position by
  position.
- Threads and per-request storage. The queue is an explicit value passed
  in and returned. The blocking collection, the lock and the lazy creation
  of the per-request queue (`ToastNotificationHandler.cs:54-69`) are not
  modelled.
- `async`/`Task`. Pushes are sequential calls whose outcome is given: a
  flag, or a failure.
- Null strings. Types, messages, categories and category names are never
  null. A null notification is `None`. A handler whose category list fails
  to enumerate behaves like a broken entry.
- The MEF composition, the singleton center and the HTTP module that
  installs the filter (`ToastNotificationsHttpModule.cs`). Injectors
  reach the filter as a fixed list of snippets, in injector order.
- The demo controller, except as the example of posts to `NOTIFICATION`
  used by `ToastApp.PostedThenRendered`.
- ToastHandler.ScriptRoundTrip: requires that no type contains a single
  quote, because types are not escaped. `QuoteInTypeBreaksScript` shows
  that the round trip fails otherwise.
- ToastApp.PostToToast: the center holds the toast handler alone. Other
  handlers are covered by `NotificationCenter.Post`.
