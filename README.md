# efmq: subscription logic of an Ethernet-frame message bus, in Dafny

efmq is a small publish/subscribe bus for one local network segment. Each
participant broadcasts raw Ethernet frames (EtherType `0xcccc`) whose payload
is a JSON envelope `{topic, payload}`. Each receiver filters what it hears
against its own list of subscribed topics. This project models the logic of
`efmq.go` that does not touch sockets, JSON or goroutines:

- the **subscription registry**: the `subscription` slice of an `EFMQ`
  value, with `Subscribe`, `Unsubscribe` and `Subscriptions`. It is modelled
  as class `Efmq.EFMQ`, whose fields are the slice's backing array and its
  length. `Unsubscribe` splices entries out of that same array while a
  `range` loop walks it, so the array is what makes its behaviour exact;
- the **summary string** that `Listen` logs: the topics joined by `", "`
  and ended by `"."` (module `Summary`, loop in `EFMQ.Listen`);
- the **padding strip** of the listener. It drops every zero byte of the
  frame payload, interior ones included (module `Padding`);
- the **topic fan-out** of the listener. It is one exact-equality scan over a
  snapshot of the subscriptions taken before the receive loop, with one push
  per equal entry (module `Dispatch`, loop in `EFMQ.Listener`). The delivery
  channel is modelled as the sequence of pushed messages;
- the frame record the despatcher fills in, as plain data, and what survives
  padding plus stripping (module `Transport`).

`Splice` holds the reference model of `Unsubscribe` as written. `Step` and
`Run` simulate the loop iteration by iteration on the backing array, including
the run-time panic (`None`). `SkipRemove` and `Panics` describe the outcome in
closed form, and `RunFromStart` proves that the two agree. In the code, a match
at index i deletes entry i. The entry after it moves into slot i and is never
compared. The slots freed at the end keep copies of the old last entry and are
still visited. Visiting such a slot when the old last entry equals the topic is
a slice-bounds panic. So `Unsubscribe(t)` panics exactly when the last entry is
`t` and `t` also occurs earlier. Otherwise it removes each `t` except one that
directly follows a removed `t`.

Points about the code that the model makes explicit:
- `Unsubscribe` does not remove every occurrence of the topic (see
  Findings).
- The listener takes its snapshot of the subscriptions once, before the
  receive loop (`efmq.go:152`), not once per frame.
- The padding strip removes every zero byte of the payload, interior ones
  included, not just the trailing ones.
- After a failed decode the code logs the error and still matches whatever
  the decoder left in the fresh `Message` (`efmq.go:171-182`). After a syntax
  error that is the zero `Message`, so a subscription to `""` receives it.
  The model therefore takes decoding as a function parameter whose result is
  matched unconditionally.

## Model

| member | source | states |
|---|---|---|
| `Efmq.EFMQ.constructor` | efmq.go:33 | a new bus instance has no subscriptions |
| `Efmq.EFMQ.Subscribe` | efmq.go:62-65 | the topic is appended at the end and every earlier entry stays in place and in order; there is no duplicate check; the backing array is reused or replaced by a fresh, larger one |
| `Efmq.EFMQ.SpliceOut` | efmq.go:72 | `append(s[:i], s[i+1:]...)` shifts entries i+1..len-1 one slot left in the same backing array, leaves the slots from len-1 on as they were, and shortens the slice by one |
| `Efmq.EFMQ.Unsubscribe` | efmq.go:68-76 | when the loop does not panic, the list becomes `SkipRemove` of the old list and nil is returned; proved against the step-by-step simulation `Splice.Run` |
| `Efmq.EFMQ.Iterate` | efmq.go:71-73 | the new backing-array window and length are exactly `Splice.Step` of the old ones: slot i is kept when it differs from the topic and spliced out on a match; the remaining simulation `Splice.Run` from i+1 gives the same outcome as from i before |
| `Efmq.EFMQ.UnsubscribeAll` | efmq.go:67-76 | corrected unsubscribe: the list becomes the old list with every entry equal to the topic removed, the others in order, and nil is returned |
| `Efmq.EFMQ.Subscriptions` | efmq.go:124-126 | returns the current subscription list |
| `Efmq.EFMQ.Listen` | efmq.go:130-140 | the logged summary is the topics joined by ", " and ended by "."; it is empty exactly when there are no subscriptions |
| `Efmq.EFMQ.Listener` | efmq.go:147-184 | the messages pushed for a stream of frames are those of `Dispatch.Dispatch` over the one snapshot of the subscriptions taken before the first frame |
| `Padding.StripPadding` | efmq.go:163-169 | the output has no zero byte; every non-zero byte value occurs in it as often as in the input; it equals the order-preserving filter `NonZero` |
| `Padding.NonZeroIsZeroFree` | efmq.go:164-169 | no zero byte survives the strip |
| `Padding.NonZeroCount` | efmq.go:164-169 | each non-zero value keeps its multiplicity, zeros disappear, and the length drops by the number of zeros |
| `Padding.NonZeroAppend` | efmq.go:164-169 | stripping distributes over concatenation, so order is kept and interior zeros are removed as well as trailing ones |
| `Padding.NonZeroIdentity` | efmq.go:164-169 | the strip leaves its input unchanged if and only if the input has no zero byte |
| `Padding.NonZeroIdempotent` | efmq.go:164-169 | stripping twice equals stripping once |
| `Transport.PaddingRoundTrip` | efmq.go:101-106 | a despatched frame carries EtherType 0xcccc, and its payload with any zero padding appended strips back to the original content if and only if the content has no zero byte |
| `Summary.JoinShape` | efmq.go:133-140 | the joined topics are as long as the topics plus two characters per separator; each character occurs as in the topics plus once per separator for ',' and ' ' |
| `Summary.SummaryShape` | efmq.go:131-140 | the summary is empty exactly for no subscriptions; otherwise it ends with '.' and its length is the topics' length plus 2·(n−1) plus 1 |
| `Summary.SeparatorCount` | efmq.go:133-140 | for topics without ',' or '.', the summary holds exactly n−1 commas and exactly one '.' |
| `Splice.Step` | efmq.go:71-73 | one loop iteration panics exactly when the entry read equals the topic and its index is not below the current length; otherwise the array keeps its size |
| `Splice.Run` | efmq.go:70-74 | the remaining iterations keep the backing array's size and a length within it |
| `Splice.SkipRemove` | efmq.go:70-74 | the list left by a non-panicking `Unsubscribe` is never longer than before |
| `Splice.RunStale` | efmq.go:70-73 | once the loop index passes the shrunken length, only copies of the old last entry are read, and the loop panics exactly when that entry is the topic |
| `Splice.RunWalk` | efmq.go:70-74 | from any intermediate loop state, the loop panics exactly when the old last entry is the topic and a freed slot or an earlier match remains; otherwise the slice ends as the finished prefix plus `SkipRemove` of the rest |
| `Splice.RunFromStart` | efmq.go:70-74 | the whole loop panics if and only if `Panics(s, t)`, and otherwise leaves exactly `SkipRemove(s, t)` |
| `Splice.PanicsIffRepeatedLast` | efmq.go:70-73 | `Unsubscribe(t)` panics if and only if the last entry is `t` and `t` occurs at least twice |
| `Splice.SkipRemoveAbsent` | efmq.go:68-76 | unsubscribing a topic that is not subscribed neither panics nor changes the list |
| `Splice.SkipRemoveOnce` | efmq.go:70-73 | a topic occurring once, between two parts without it, is cut out and the two parts are joined in order |
| `Splice.UnsubscribeUnique` | efmq.go:70-73 | a topic subscribed exactly once is removed without a panic, the other entries keep their relative order, and the length drops by one |
| `Splice.AgreesWhenAtMostOnce` | efmq.go:68-76 | while a topic is subscribed at most once, the code as written and the remove-all behaviour give the same list |
| `Splice.RepeatedTopicCounterexamples` | efmq.go:70-73 | ["t","t"] and ["t","t","t"] panic on unsubscribing "t"; ["t","t","x"] is left as ["t","x"], where removing all would give ["x"] |
| `Splice.RemoveAllCount` | efmq.go:67-68 | the corrected removal leaves no entry equal to the topic and keeps every other entry as often as before |
| `Dispatch.FanOut` | efmq.go:177-182 | the message is pushed exactly once per subscription entry equal to its topic, and every pushed value is the message itself |
| `Dispatch.DeliverCount` | efmq.go:177-182 | the pushes for one message number the multiplicity of its topic among the subscriptions, and each equals the message |
| `Dispatch.DeliveredIffSubscribed` | efmq.go:177-182 | a message is delivered at all if and only if its topic equals some entry exactly; prefixes, other cases or patterns match nothing |
| `Dispatch.DispatchAppend` | efmq.go:155-183 | frames are handled in receive order with the same snapshot: the deliveries for two streams back to back are those of the first followed by those of the second |
| `Dispatch.DispatchOnlySubscribed` | efmq.go:177-182 | every delivered message has a topic in the snapshot |
| `Dispatch.DispatchUniform` | efmq.go:155-183 | if every frame decodes to the same message, it is delivered once per frame and per matching entry, and nothing else is delivered |

## Left out

- `NewEFMQ` and `connect` (efmq.go:32-59) resolve a network interface and open
  a raw socket. These are operating-system calls. The constructor models only
  the empty instance that `new(EFMQ)` creates.
- `Publish` (efmq.go:80-96) encodes with the standard library's JSON encoder,
  and `despatcher` (efmq.go:99-122) marshals the frame and writes it to the
  socket. Both are foreign-library or network calls. `Transport.Despatched`
  models only the frame record's fields.
- JSON decoding (efmq.go:171-175) is the parameter `decode`. Its result is
  what the decoder leaves in a fresh `Message`. Escaping, field names (the
  `Payload` tag is malformed, efmq.go:26) and round trips are not modelled.
- Reading and unmarshalling frames (efmq.go:153-162) is socket I/O and
  library decoding. `Listener` takes the sequence of frame payloads the loop
  sees at efmq.go:165. The frame variable persists across iterations, so the
  payload after a failed read is whatever the library left in it; that is not
  modelled.
- The goroutine (efmq.go:143) and the unbuffered channel (efmq.go:21, 34) are
  concurrency. Pushes are appended to an output sequence, and blocking and
  backpressure are not modelled. The infinite receive loop is modelled over a
  finite stream of frames.
- Aliasing is not modelled. In Go, `Subscriptions` and the listener's snapshot
  share the slice's backing array, so a later in-place splice would be visible
  through them. The model returns and snapshots copies. Mutation while the
  listener runs would be a data race, which is outside the model.
- `Efmq.EFMQ.Subscribe`: the capacity of a grown backing array is taken as
  double (or 1 when empty). Go's growth policy is not modelled; capacity is
  observable only through aliasing.
- `Efmq.EFMQ.Unsubscribe`: the panic is excluded by a precondition
  (`!Splice.Panics`) rather than returned. `Splice.Run` yields `None` for it,
  and `Splice.RunFromStart` states exactly when it happens.
- Strings: Go strings are byte strings, while the model uses Dafny `string`,
  a sequence of Unicode characters. The lengths in `Summary.JoinShape` and
  `Summary.SummaryShape` count characters where Go's `len` counts bytes, and
  a topic that is not valid UTF-8 has no counterpart in the model.
- Logging (`log.Println`, `log.Printf`) is left out. `Listen` returns the
  summary string instead of logging it with the surrounding text.
- The unused `listening` field (efmq.go:20) is left out.
- The example programs need a live network interface and a ticker.
  `Efmq.FermenterClient`, `Efmq.DuplicateSubscriptionClient` and
  `Efmq.RemoveAllClient` state their
  outcomes on the model instead.

## Findings

| source | as written | input that shows it | evidently intended | confidence | as-written member | corrected member |
|---|---|---|---|---|---|---|
| efmq.go:70-73 | entries are spliced out of the slice inside a `range` over the original indices, so the entry after a removed one is skipped and freed slots are re-read | unsubscribing "t" from ["t","t"] or ["t","t","t"] is a slice-bounds panic; from ["t","t","x"] it leaves ["t","x"] | remove every entry equal to the topic and return nil | high (not executed) | `Splice.RepeatedTopicCounterexamples` | `Efmq.EFMQ.UnsubscribeAll` |
