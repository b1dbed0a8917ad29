# Verified model of the SERVIX core logic

SERVIX is a salon-management platform: an API (`apps/api`) and a dashboard (`apps/dashboard`). Most of
it moves rows between tables and screens. This project models the parts that hold real logic and proves
what their design relies on. Each module follows one source file; functions that only compute are Dafny
functions, loops and updates in place are methods and classes proved against those functions, and
protocols are state machines with theorems over all their runs.

| modules | source | main results |
|---|---|---|
| `Text`, `ZatcaHash`, `ZatcaSplice`, `ZatcaEmbed`, `ZatcaQr`, `ZatcaInvoice` | the invoice stamp of `zatca-crypto.service.ts` | when the signature block and the QR code, spliced into a document that was hashed before, leave its hash alone |
| `Words`, `Tlv` | the QR payload | when a reader recovers exactly the printed fields |
| `Words`, `Base32`, `Decimals`, `Totp` | `two-factor.service.ts` | the 32-bit Base32 codec round-trips; codes are those of RFC 4226 and RFC 6238 |
| `TokenRefresh` | `api.ts` of the dashboard | single flight, no lost waiter |
| `Decimals`, `SelfOrders`, `OrderExpiry` | `public.service.ts`, `order-expiry.service.ts` | codes without gaps under any interleaving; notified orders against expired orders |
| `Subscriptions`, `SubscriptionPhase`, `Features` | subscriptions, provisioning, features | one live subscription; the two feature look-ups agree |
| `AbTesting` | `ab-testing.service.ts` | exact split, sticky variants, reports that add up |
| `DataRights`, `DeletionService` | `data-rights.service.ts` | when a request survives and when an executed deletion is owed, with every database call a step of its own |
| `Slug`, `Slugifier`, `Counting` | `auth.service.ts`, `roles.service.ts`, `public.service.ts` | slug normal form, and what becomes of a text; validation by counting |

External things are parameters: HMAC-SHA-1, the MD5 bucket hash, the clock, the Unicode case tables, the
rows that a database search returns, and the ends of calendar periods.

## What the proofs found

Where a property holds only under a condition, the theorem is an equivalence.

- Embedding the signature leaves the hash alone exactly when nothing visible follows the root tag on its
  line. The builder's documents meet this (a line break follows the tag). One-line documents, like those of
  `apps/api/src/modules/zatca/zatca-crypto.service.spec.ts:146`, change their hash.
- Filling the QR slot leaves the hash alone exactly when the slot lies in a deleted block (or the text is
  empty); the builder's closed reference does. Both changes together leave it alone exactly when each does.
- A payload with a text of more than 127 bytes is never recovered by a plain BER reader, and one with a
  text of more than 255 bytes not even by a reader that knows the text tags, because the length of a text is
  written into one byte. (A single text can be reported as it was written although its length byte has
  wrapped, as `Tlv.WrappedTextIsReported` shows, but then the reader has lost step.)
- The TOTP counter is written as the standard says exactly below 2^31, because the loop shifts with 32-bit
  operators. This is reached in the year 4011.
- The refusal above 999 orders speaks of the month, but the search is for the letter: January orders of
  all years share A001 to A999.
- The expiry job reports the orders that it found, not those it updated. An order claimed in between is
  reported although it is not expired (`SelfOrders.ClaimedOrderIsReported`); an expired order goes unreported
  only if its insert came at least thirty minutes after its request began, and then it can
  (`SelfOrders.LateOrderIsNotReported`).
- The header comment of `subscription-status.service.ts` sets data deletion at day 60. The code reaches the
  phase `deleted` when 61 days are over; its count-down shows zero once 59 are.
- Renewal looks for active, expired and cancelled subscriptions but not for trials. It is safe because a
  trial is always a tenant's first subscription. The administrator's `extendTrial`
  (`apps/api/src/core/admin/admin.service.ts:1924-1932`) can turn a later expired subscription into a trial
  and so break that.
- A renewal finds a row and updates it without a transaction. With other operations in between it leaves
  one live subscription exactly when none of them creates one for the tenant.
- An order refused only because a service is listed twice names no missing service in its message
  (`Counting.RepeatedServiceIsRejected`).
- A tenant slug starts with a hyphen exactly when nothing of the English name survives the slug chain, as
  with the name `!` (`Slug.NamelessTenant`).
- A deletion request is three separate upserts. It is stored whole exactly when nothing deletes the slot and
  no other request writes its first row before its last upsert, and no other request writes its second row
  between its last two. If the owner of an older request cancels after the first upsert, the deletion will be
  executed and its user cannot cancel it; after the second, the request is acknowledged but lost.
- The deletion job reads the schedule and the user with two queries. If a request of another user comes in
  between, that user is anonymised at once (`DataRights.TakesYoungRequest`). The deletion is owed exactly when
  the schedule is still due when the user is read. The final deletion of the slot wipes a request that was
  stored after the decision.

## Model

| member | source | states |
|---|---|---|
| ZatcaHash.ApplyHashTransforms | apps/api/src/modules/zatca/zatca-crypto.service.ts:282-308 | the pass-by-pass rewriting computes `HashInput`, the function that all hash theorems are about |
| ZatcaHash.RemoveBlock | apps/api/src/modules/zatca/zatca-crypto.service.ts:285-298 | a pass deletes a whole block, up to the first closing marker, whatever stands in it |
| ZatcaHash.RemoveSkips | apps/api/src/modules/zatca/zatca-crypto.service.ts:285-298 | a pass leaves alone any text in which its block cannot open |
| ZatcaHash.NormalForm | apps/api/src/modules/zatca/zatca-crypto.service.ts:300-305 | the lines of the normal form are exactly the trimmed visible lines, and normalising twice is normalising once |
| ZatcaHash.MarkersOfExtensions | apps/api/src/modules/zatca/zatca-crypto.service.ts:286 | the markers of the first pattern |
| ZatcaHash.MarkersOfReference | apps/api/src/modules/zatca/zatca-crypto.service.ts:289-292 | the markers of the second pattern |
| ZatcaHash.MarkersOfSignature | apps/api/src/modules/zatca/zatca-crypto.service.ts:294-298 | the markers of the third pattern |
| Text.TrimEndIsExact | apps/api/src/modules/zatca/zatca-crypto.service.ts:303 | trimming takes all white space at the end of a line and nothing else |
| ZatcaEmbed.StripRemovesExtensions | apps/api/src/modules/zatca/zatca-crypto.service.ts:285-298 | an extension block disappears from the hashed text before the other passes look at what stands in it |
| ZatcaEmbed.StripRemovesReference | apps/api/src/modules/zatca/zatca-crypto.service.ts:285-298 | a QR reference disappears before the signature pass looks at what stands in it |
| ZatcaEmbed.StripRemovesSignature | apps/api/src/modules/zatca/zatca-crypto.service.ts:294-298 | a signature element disappears from the hashed text, with what surrounds it unchanged |
| ZatcaEmbed.RemovesQrReference | apps/api/src/modules/zatca/zatca-crypto.service.ts:288-292 | a QR reference is deleted for every white space before its identifier and every content |
| ZatcaEmbed.KeepsOtherReference | apps/api/src/modules/zatca/zatca-crypto.service.ts:288-292 | a document reference with another identifier is kept |
| ZatcaEmbed.EmbeddedText | apps/api/src/modules/zatca/zatca-crypto.service.ts:465-468 | the replacement template puts a line break and the block right behind the first root tag and changes nothing else |
| ZatcaEmbed.EmbeddedDocument | apps/api/src/modules/zatca/zatca-crypto.service.ts:411-468 | the whole document after embedding, tag by tag |
| ZatcaEmbed.NothingToEmbed | apps/api/src/modules/zatca/zatca-crypto.service.ts:465-468 | a document without a root tag is left as it is |
| ZatcaEmbed.EmbedPreservesHash | apps/api/src/modules/zatca/zatca-crypto.service.ts:380-469 | embedding leaves the hashed text alone if and only if the root tag's line has nothing visible behind the tag once the removable blocks are gone; otherwise the text grows |
| ZatcaEmbed.EmbedAfterLineBreak | apps/api/src/modules/zatca/zatca-crypto.service.ts:465-468 | so it does for every document with a line break behind the root tag |
| ZatcaEmbed.EmbedChangesSameLine | apps/api/src/modules/zatca/zatca-crypto.service.ts:465-468 | it changes the hashed text of every document with visible content right behind the root tag |
| ZatcaEmbed.EmbedChangesOneLineDocument | apps/api/src/modules/zatca/zatca-crypto.service.spec.ts:146 | such as a document on one line |
| ZatcaSplice.InsertThenRemove | apps/api/src/modules/zatca/zatca-crypto.service.ts:285-298 | inserting a text without markers commutes with a deletion pass, or the pass forgets it when a deleted block covers the place |
| ZatcaSplice.CutSound | apps/api/src/modules/zatca/zatca-crypto.service.ts:285-298 | a pass works independently on both sides of a point that no deleted block covers |
| ZatcaSplice.CutStaysCovered | apps/api/src/modules/zatca/zatca-crypto.service.ts:285-298 | a point covered by a block stays covered whatever stands before that block |
| ZatcaSplice.NormalizeInsertion | apps/api/src/modules/zatca/zatca-crypto.service.ts:300-305 | a non-empty text between two tags is never lost by the normal form |
| ZatcaQr.InjectedText | apps/api/src/modules/zatca/zatca-crypto.service.ts:525-530 | the QR text is inserted at one point of the document, which is otherwise unchanged |
| ZatcaQr.NothingToInject | apps/api/src/modules/zatca/zatca-crypto.service.ts:525-530 | a document without an empty slot is left as it is |
| ZatcaQr.MarkersOfSlot | apps/api/src/modules/zatca/zatca-crypto.service.ts:527 | the markers of the slot's pattern |
| ZatcaQr.InjectPreservesHash | apps/api/src/modules/zatca/zatca-crypto.service.ts:525-530 | filling the slot leaves the hashed text alone if and only if the text is empty or the slot lies in a block that the passes delete; otherwise the text grows |
| ZatcaQr.InjectIntoClosedReference | apps/api/src/modules/zatca/zatca-crypto.service.ts:525-530 | so it does when the reference is closed behind the slot |
| ZatcaQr.SlotAfterEmbedding | apps/api/src/modules/zatca/zatca-crypto.service.ts:525-530 | embedding the signature does not change which slot is filled |
| ZatcaQr.SlotOfSigned | apps/api/src/modules/zatca/zatca-crypto.service.ts:525-530 | nor whether that slot lies in a deleted block |
| ZatcaQr.StampPreservesHash | apps/api/src/modules/zatca/zatca-crypto.service.ts:380-530 | the stamped invoice is hashed like the invoice that was signed if and only if both the signature block and the QR code leave the hashed text alone, stated on the invoice before it is stamped |
| ZatcaQr.StampOfClosedReference | apps/api/src/modules/zatca/zatca-crypto.service.ts:380-530 | so it is with a line break behind the root tag and a closed QR reference |
| ZatcaInvoice.StampOfInvoice | apps/api/src/modules/zatca/zatca-xml.builder.ts:30-60 | every document of the builder's layout (prolog, root tag, line break, other references, empty QR reference) keeps its hash when it is stamped |
| ZatcaInvoice.SlotSkipsOthers | apps/api/src/modules/zatca/zatca-xml.builder.ts:49-54 | the search for the slot passes over the references with other identifiers |
| ZatcaInvoice.StampOfSample | apps/api/src/modules/zatca/zatca-xml.builder.ts:102-112 | a concrete document of that layout |
| Tlv.GenerateTLV | apps/api/src/modules/zatca/zatca-crypto.service.ts:536-554 | the payload is the print of the 8 or 9 fields in tag order; it fails if and only if a binary field exceeds 65535 bytes |
| Tlv.TlvParts.AddText | apps/api/src/modules/zatca/zatca-crypto.service.ts:556-559 | appends one text field to the buffers |
| Tlv.TlvParts.AddBinary | apps/api/src/modules/zatca/zatca-crypto.service.ts:561-570 | appends one binary field in the short or the long form, or throws |
| Tlv.ReadsBack | apps/api/src/modules/zatca/zatca-crypto.service.ts:556-570 | a reader recovers any list of fields if and only if no text exceeds its limit: 127 bytes for a BER reader, 255 for a reader that knows the text tags; texts of any length |
| Tlv.BerMisreadsText | apps/api/src/modules/zatca/zatca-crypto.service.ts:556-559 | a BER reader never reports a single text of 128 to 255 bytes correctly |
| Tlv.NeverCatchesUp | apps/api/src/modules/zatca/zatca-crypto.service.ts:556-570 | a BER reader that starts behind the first byte never reports the fields that were printed |
| Tlv.WrappedTextIsReported | apps/api/src/modules/zatca/zatca-crypto.service.ts:556-559 | a single text of 1666 bytes that is reported as it was written although its length byte has wrapped |
| Tlv.PayloadReadsBack | apps/api/src/modules/zatca/zatca-crypto.service.ts:536-554 | the same for whole payloads and both readers |
| Tlv.ReaderFinds | apps/api/src/modules/zatca/zatca-crypto.service.ts:536-554 | what a reader finds under each tag: 1 the seller's name, 2 the VAT number, up to 9 the stamp |
| Tlv.PayloadDeterminesInvoice | apps/api/src/modules/zatca/zatca-crypto.service.ts:536-554 | invoices with equal payloads are equal |
| Words.OrDisjoint | apps/api/src/core/auth/two-factor.service.ts:91 | `\|` of numbers without common bits is their sum |
| Words.AndMask | apps/api/src/core/auth/two-factor.service.ts:94 | `&` with k ones is the remainder modulo 2^k |
| Base32.ShiftIn | apps/api/src/core/auth/two-factor.service.ts:91 | the never-masked 32-bit accumulator keeps all pending bits when a digit or byte is shifted in |
| Base32.TakeOut | apps/api/src/core/auth/two-factor.service.ts:94 | unsigned shift and mask read exactly the leading pending bits |
| Base32.Base32Encode | apps/api/src/core/auth/two-factor.service.ts:84-102 | the loop computes the regrouping of section 6 of RFC 4648, without padding |
| Base32.Base32Decode | apps/api/src/core/auth/two-factor.service.ts:104-128 | the loop computes the inverse regrouping, or fails if and only if a character is no digit |
| Base32.RoundTrip | apps/api/src/core/auth/two-factor.service.ts:84-128 | decoding an encoded byte sequence gives it back, for all sequences; the text has ceil(8n/5) characters |
| Base32.RoundTripAnyCase | apps/api/src/core/auth/two-factor.service.ts:111-127 | an encoding in any mixture of capital and small letters, with any padding, is decoded to the bytes that were encoded |
| Base32.RejectsExactly | apps/api/src/core/auth/two-factor.service.ts:111-118 | an ASCII text is rejected if and only if, apart from its padding, it has a character that is no letter and no digit from 2 to 7 |
| Base32.VectorOfStandard | apps/api/src/core/auth/two-factor.service.ts:84-102 | the first test vector of section 10 of RFC 4648, without its padding |
| Totp.CounterBuffer | apps/api/src/core/auth/two-factor.service.ts:62-67 | the shift loop writes the eight bytes of the counter's signed 32-bit reading |
| Totp.CounterIsStandard | apps/api/src/core/auth/two-factor.service.ts:62-67 | these are the counter bytes of section 5.2 of RFC 4226 if and only if the counter is below 2^31 |
| Totp.BytesInOrder | apps/api/src/core/auth/two-factor.service.ts:62-67 | byte i of k is the digit of weight 256^(k-1-i) |
| Totp.BinaryIsTruncation | apps/api/src/core/auth/two-factor.service.ts:73-78 | the shifts and masks compute the dynamic truncation of section 5.3 of RFC 4226, inside the 20 bytes and non-negative |
| Totp.ExampleOfStandard | apps/api/src/core/auth/two-factor.service.ts:73-80 | the digest in section 5.4 of RFC 4226 gives 872921 |
| Totp.GenerateTOTP | apps/api/src/core/auth/two-factor.service.ts:60-82 | the six-digit code of the decoded secret, or the decoder's exception |
| Totp.VerifyToken | apps/api/src/core/auth/two-factor.service.ts:35-46 | accepted if and only if the token has six characters and is the code of the current time step or a neighbour |
| Totp.AcceptsStandardCodes | apps/api/src/core/auth/two-factor.service.ts:35-46 | these codes are the ones of RFC 4226 and RFC 6238, from the first time step on; in the first one the code of -1 is accepted too |
| Totp.CodeReads | apps/api/src/core/auth/two-factor.service.ts:69-81 | a code is six digits that stand for the four bytes at the digest's offset, without the first bit, modulo a million |
| Totp.StepIsThirtySeconds | apps/api/src/core/auth/two-factor.service.ts:37-41 | a time step lasts thirty seconds |
| Totp.CodesDetermineNumbers | apps/api/src/core/auth/two-factor.service.ts:80-81 | padding to six digits loses nothing |
| Decimals.PaddedDecimal | apps/api/src/core/auth/two-factor.service.ts:81 | `toString` and `padStart` give exactly k digits |
| Decimals.NumeralOrder | apps/api/src/modules/public/public.service.ts:141-145 | string order of equally long numerals is numeric order |
| Decimals.ParsesBack | apps/api/src/modules/public/public.service.ts:147-153 | `parseInt` undoes the padding |
| TokenRefresh.TokenRefresher.DrainQueue | apps/dashboard/src/lib/api.ts:18-27 | everyone in the queue is settled once, in order, with the outcome; then the queue is empty |
| TokenRefresh.TokenRefresher.TryRefreshToken | apps/dashboard/src/lib/api.ts:40-64 | the piece up to the first await is the protocol's call step |
| TokenRefresh.TokenRefresher.AfterFetch | apps/dashboard/src/lib/api.ts:66-71 | the piece after the response is its response step |
| TokenRefresh.TokenRefresher.AfterJson | apps/dashboard/src/lib/api.ts:72-122 | the piece after the body is its body step |
| TokenRefresh.SingleFlight | apps/dashboard/src/lib/api.ts:10-16 | in every reachable state at most one request is under way, and nobody waits unless there is one |
| TokenRefresh.NoLostWaiter | apps/dashboard/src/lib/api.ts:37-48 | a waiter is in the queue while its round lasts and afterwards has been settled exactly once, with its leader's outcome |
| TokenRefresh.EveryCallIsServed | apps/dashboard/src/lib/api.ts:43-64 | a call during a round becomes a waiter of that round; any other call starts a request if and only if a refresh token is stored, and else returns null at once |
| TokenRefresh.LeaderEndsRound | apps/dashboard/src/lib/api.ts:66-122 | whatever event ends a round settles everyone who waits and frees the way for the next request |
| TokenRefresh.ResponseDecides | apps/dashboard/src/lib/api.ts:60-71 | the leader goes on to the body of an accepted response and changes nothing else; any other response ends its round with null and rejects everyone |
| TokenRefresh.BodyDecides | apps/dashboard/src/lib/api.ts:71-122 | every body ends the round, with its token if it is fresh and else with null |
| TokenRefresh.StrayEvents | apps/dashboard/src/lib/api.ts:60-71 | no response is used twice |
| TokenRefresh.RoundSucceeds | apps/dashboard/src/lib/api.ts:40-123 | a round with a refresh token, an accepted response and a fresh token, with any calls in between, returns this token and resolves every call that has joined it |
| TokenRefresh.RoundSettlesOnce | apps/dashboard/src/lib/api.ts:18-27 | each of them just once |
| TokenRefresh.RoundIsRun | apps/dashboard/src/lib/api.ts:40-123 | such a round is a stretch of a run |
| TokenRefresh.SkippingProcessQueue | apps/dashboard/src/lib/api.ts:54-58 | ending a round without `processQueue` keeps the protocol sound if and only if nobody waits |
| SelfOrders.CodesAreContiguous | apps/api/src/modules/public/public.service.ts:136-180 | under every interleaving the codes of a letter are exactly L001 to Lk, k at most 999 |
| SelfOrders.InsertOutcome | apps/api/src/modules/public/public.service.ts:161-180 | an insert adds the next free code, or fails because another call took it since the read |
| SelfOrders.LetterIsFull | apps/api/src/modules/public/public.service.ts:155-159 | with 999 codes of a letter stored, every further call is refused |
| SelfOrders.ReadPicksNext | apps/api/src/modules/public/public.service.ts:136-162 | with k codes of the month's letter stored, k below 999, a call prepares number k + 1 of this letter |
| SelfOrders.NumbersStartAtOne | apps/api/src/modules/public/public.service.ts:147-153 | without a last code, or behind one that does not read as a number, numbers start at 1 |
| SelfOrders.CodeReads | apps/api/src/modules/public/public.service.ts:161 | a code is its letter and three digits that read as its number |
| SelfOrders.CodeOrder | apps/api/src/modules/public/public.service.ts:141-145 | the descending order of codes is the descending order of their numbers |
| SelfOrders.OrderIsFound | apps/api/src/modules/public/public.service.ts:201-233 | every stored order is found by its code alone |
| SelfOrders.LookupIsExact | apps/api/src/modules/public/public.service.ts:201-233 | an answer is the stored order, and a code that is not stored gets none |
| SelfOrders.ReportedAndExpired | apps/api/src/modules/public/public.service.ts:257-283 | with anything between find and update: all expired orders are reported if and only if no order inserted in between is due, and all reported ones expire if and only if they are all still pending |
| SelfOrders.NoLostNotification | apps/api/src/modules/public/public.service.ts:257-283 | no notification is lost when inserts in between stem from requests of the last thirty minutes |
| SelfOrders.ClaimedOrderIsReported | apps/api/src/modules/public/public.service.ts:261-282 | a run in which an order that is claimed in between is reported and stays claimed |
| SelfOrders.LateOrderIsNotReported | apps/api/src/modules/public/public.service.ts:261-282 | a run in which an order expires without being reported |
| SelfOrders.ExpiresOnlyDue | apps/api/src/modules/public/public.service.ts:271-278 | the update changes exactly the due orders, and those to expired |
| SelfOrders.NeverEarly | apps/api/src/modules/public/public.service.ts:162 | an order is due only when more than thirty minutes have passed since its request |
| OrderExpiry.OrderTable.CreateOrder | apps/api/src/modules/public/public.service.ts:136-180 | without interleaving the next code is stored, or the call is refused when 999 are; codes stay contiguous |
| OrderExpiry.OrderTable.ExpireOrders | apps/api/src/modules/public/public.service.ts:257-283 | without interleaving the reported orders are exactly those that expire |
| OrderExpiry.OrderExpiryService.HandleExpiry | apps/api/src/modules/public/order-expiry.service.ts:21-98 | every tenant gets its turn, as IsTurn describes it, wherever an earlier turn fails; a second job does nothing while one runs |
| OrderExpiry.Turn | apps/api/src/modules/public/order-expiry.service.ts:44-83 | the body of the loop is such a turn |
| OrderExpiry.TurnIsRight | apps/api/src/modules/public/order-expiry.service.ts:44-83 | a turn updates if and only if it does not fail before and both the count and the find meet an overdue pending order; it expires exactly the overdue pending orders that the update meets, and notifies those that the find has met |
| OrderExpiry.TurnNotifiesExpired | apps/api/src/modules/public/order-expiry.service.ts:56-83 | with any operations in between, everyone whose order expires is notified if and only if the turn does not fail after the update and no order inserted in between is due |
| OrderExpiry.JobNotifiesExpired | apps/api/src/modules/public/order-expiry.service.ts:43-84 | a turn with nothing between find and update notifies exactly the orders that it turns from pending to expired |
| Subscriptions.EveryRun | apps/api/src/core/subscriptions/subscriptions.service.ts:56-191 | after any sequence of operations a tenant has at most one live subscription, its newest; a pending tenant has none; a trial comes first |
| Subscriptions.CancelLeavesNone | apps/api/src/core/subscriptions/subscriptions.service.ts:132-152 | cancelling whichever live subscription is found leaves none and changes no other row |
| Subscriptions.RenewLeavesOne | apps/api/src/core/subscriptions/subscriptions.service.ts:154-191 | a renewal that succeeds leaves the tenant's newest subscription, with its plan and the new period, as the only live one; any other changes nothing |
| Subscriptions.CreateLeavesOne | apps/api/src/core/subscriptions/subscriptions.service.ts:73-113 | creating leaves exactly the new subscription live; the tenant becomes active, its live subscriptions are cancelled with their plan and period kept, all other rows and tenants stay |
| Subscriptions.CreateNeedsTenant | apps/api/src/core/subscriptions/subscriptions.service.ts:65-71 | nothing happens for an unknown tenant |
| Subscriptions.RenewalFinds | apps/api/src/core/subscriptions/subscriptions.service.ts:155-162 | the search of a renewal finds the tenant's last active, expired or cancelled row |
| Subscriptions.ProvisionIsOnce | apps/api/src/core/auth/auth.service.ts:869-878 | verification gives a pending tenant its first subscription, a trial; a second verification changes nothing |
| Subscriptions.RegisterAddsPending | apps/api/src/core/auth/auth.service.ts:151-159 | a registration adds a pending tenant and changes nothing else |
| Subscriptions.RenewNeedsTrialFirst | apps/api/src/core/subscriptions/subscriptions.service.ts:155-162 | a renewal keeps one live subscription if and only if no trial stands behind an older renewable subscription |
| Subscriptions.RenewInTwoSteps | apps/api/src/core/subscriptions/subscriptions.service.ts:155-190 | with other operations between its search and its update a renewal leaves one live subscription if and only if none of them creates one for the tenant |
| Subscriptions.CancelInTwoSteps | apps/api/src/core/subscriptions/subscriptions.service.ts:133-151 | with other operations in between a cancellation keeps the invariant; it leaves a live subscription exactly when a newer one is live by then |
| Subscriptions.SubscriptionsService.CreateSubscription | apps/api/src/core/subscriptions/subscriptions.service.ts:56-113 | not found, or all that CreateLeavesOne says of rows and tenants |
| Subscriptions.SubscriptionsService.CancelSubscription | apps/api/src/core/subscriptions/subscriptions.service.ts:132-152 | not found if and only if nothing is live; otherwise one live subscription is cancelled, and none is left |
| Subscriptions.SubscriptionsService.RenewSubscription | apps/api/src/core/subscriptions/subscriptions.service.ts:154-191 | the newest renewable subscription is revived, refused when active, not found when there is none |
| Subscriptions.SubscriptionsService.ProvisionAfterVerification | apps/api/src/core/auth/auth.service.ts:955-975 | the provisioning step for pending tenants |
| SubscriptionPhase.PhasesMoveForward | apps/api/src/core/subscriptions/subscription-status.service.ts:29-90 | as time goes by phases never go back, rights never return, and the counters move in opposite directions |
| SubscriptionPhase.RightsOfPhase | apps/api/src/core/subscriptions/subscription-status.service.ts:45-89 | which rights each phase has and which times it spans |
| SubscriptionPhase.PhaseByDay | apps/api/src/core/subscriptions/subscription-status.service.ts:45-89 | the phase by time: read-only up to day 7 after the period, locked up to day 60 |
| SubscriptionPhase.CountersAreDays | apps/api/src/core/subscriptions/subscription-status.service.ts:33-43 | the counters are whole days since the period and until sixty days after it; a running subscription has no count-down |
| SubscriptionPhase.DeletionDay | apps/api/src/core/subscriptions/subscription-status.service.ts:39-89 | deleted from day 61 on; the count-down is zero as soon as day 59 is over |
| SubscriptionPhase.CountersAddUp | apps/api/src/core/subscriptions/subscription-status.service.ts:35-43 | the two counters add up to 60 at whole days and to 59 in between |
| Features.GetTenantFeatures | apps/api/src/core/features/features.service.ts:90-160 | not found for an unknown tenant, else the listing |
| Features.ListFeatures | apps/api/src/core/features/features.service.ts:121-159 | the two loops compute the listing: plan features with overrides applied, then the other overrides |
| Features.ListingIsExact | apps/api/src/core/features/features.service.ts:125-159 | every feature of the plan or of an override is listed exactly once, and an override wins over the plan |
| Features.EntryMeans | apps/api/src/core/features/features.service.ts:129-157 | a line of the listing is the tenant's own setting, or an enabled feature of the plan without one |
| Features.CheckAgainstListing | apps/api/src/core/features/features.service.ts:162-197 | what the listing enables the check enables; they differ exactly on features that only an older live subscription includes |
| Features.CheckMeans | apps/api/src/core/features/features.service.ts:162-197 | an unknown code is off; the tenant's own setting decides if there is one, and else an active or trial plan that includes the feature |
| Features.CheckAgreesWithListing | apps/api/src/core/features/features.service.ts:90-197 | after any sequence of subscription operations they agree on every code |
| AbTesting.SelectVariant | apps/api/src/shared/ab-testing/ab-testing.service.ts:71-79 | the cumulative loop selects the first variant whose sum exceeds the bucket, else control |
| AbTesting.BucketsAreInterval | apps/api/src/shared/ab-testing/ab-testing.service.ts:65-79 | the buckets of a variant are one interval between its cumulative sums, so they are disjoint |
| AbTesting.SplitIsExact | apps/api/src/shared/ab-testing/ab-testing.service.ts:65-79 | every variant takes exactly its percentage of the 100 buckets if and only if the percentages sum to at most 100; the rest falls through |
| AbTesting.AnswerIsByResidue | apps/api/src/shared/ab-testing/ab-testing.service.ts:55-90 | a new user gets the name of the variant between whose cumulative sums the hash modulo 100 lies, else control, and this is recorded; an experiment that is missing or not active answers control and records nothing |
| AbTesting.NamesSplitExactly | apps/api/src/shared/ab-testing/ab-testing.service.ts:65-79 | with distinct names other than control, every name is handed out for exactly its percentage of the residues if and only if the percentages sum to at most 100 |
| AbTesting.StickyAssignment | apps/api/src/shared/ab-testing/ab-testing.service.ts:55-90 | a variant handed out once is handed out by every later active call, whatever happens in between |
| AbTesting.ConversionsWithinExposures | apps/api/src/shared/ab-testing/ab-testing.service.ts:133-146 | no variant reports more converted than exposed users |
| AbTesting.ReportAddsUp | apps/api/src/shared/ab-testing/ab-testing.service.ts:113-157 | with distinct names exposures add up to the users with a listed variant, and values to all they converted |
| AbTesting.ReportIsComplete | apps/api/src/shared/ab-testing/ab-testing.service.ts:113-157 | the report accounts for every exposed user if and only if every recorded variant is still listed |
| AbTesting.ReportLine | apps/api/src/shared/ab-testing/ab-testing.service.ts:133-154 | a line of the report: users shown the variant, users of those who converted, and the sum of the values of their conversions |
| AbTesting.ReportOfExperiment | apps/api/src/shared/ab-testing/ab-testing.service.ts:123-156 | one line for every variant, in order |
| AbTesting.ABTestingService.GetVariantFor | apps/api/src/shared/ab-testing/ab-testing.service.ts:55-90 | returns the variant and records the exposure as the model's step does |
| AbTesting.ABTestingService.TrackConversion | apps/api/src/shared/ab-testing/ab-testing.service.ts:95-108 | appends one conversion and changes nothing else |
| AbTesting.ABTestingService.CreateExperiment | apps/api/src/shared/ab-testing/ab-testing.service.ts:162-166 | stores the experiment under its id and keeps all exposures |
| AbTesting.ABTestingService.UpdateStatus | apps/api/src/shared/ab-testing/ab-testing.service.ts:176-186 | changes the status of an experiment that exists |
| AbTesting.ABTestingService.constructor | apps/api/src/shared/ab-testing/ab-testing.service.ts:188-210 | the sample experiments are drafts and split exactly |
| DataRights.UpsertsStore | apps/api/src/modules/data-rights/data-rights.service.ts:239-252 | three upserts with nothing in between store the whole request |
| DataRights.RequestSurvives | apps/api/src/modules/data-rights/data-rights.service.ts:239-252 | a request is stored whole if and only if nothing deletes the slot and no other request writes its first row between the first and the last upsert, and none its second row between the last two |
| DataRights.RequestOutcome | apps/api/src/modules/data-rights/data-rights.service.ts:239-252 | an acknowledged request can be cancelled by its user if and only if the row of the request time is not gone, and will be found by the job if and only if the row of the schedule is not gone |
| DataRights.ClearedEarly | apps/api/src/modules/data-rights/data-rights.service.ts:239-252 | a slot deleted after the first upsert: the deletion will be executed and cannot be cancelled |
| DataRights.ClearedLate | apps/api/src/modules/data-rights/data-rights.service.ts:239-252 | a slot deleted after the second upsert: the request is lost |
| DataRights.CancelAfterFirst | apps/api/src/modules/data-rights/data-rights.service.ts:239-307 | a run of the first kind, by a cancellation of the older request |
| DataRights.CancelAfterSecond | apps/api/src/modules/data-rights/data-rights.service.ts:239-307 | a run of the second kind |
| DataRights.ClearHasReason | apps/api/src/modules/data-rights/data-rights.service.ts:279-396 | in every interleaving, a call that deletes the slot has found its own user in it, or has executed a deletion |
| DataRights.SlotTellsHistory | apps/api/src/modules/data-rights/data-rights.service.ts:232-396 | with whole requests and any interleaving of cancellations and jobs, the slot is empty or holds the last stored request |
| DataRights.ExecutionIsOwed | apps/api/src/modules/data-rights/data-rights.service.ts:320-337 | the user that a job takes made the request that touched the slot last; the deletion is owed if and only if the schedule is still due when the user is read |
| DataRights.OwedBetweenReads | apps/api/src/modules/data-rights/data-rights.service.ts:320-337 | it is owed if and only if nothing touches the slot between the two reads, or the request stored last is itself thirty days old |
| DataRights.JobIsNotOvertaken | apps/api/src/modules/data-rights/data-rights.service.ts:320-337 | in every interleaving a job executes just the request it found due, unless another request writes its user row before the job reads it |
| DataRights.TakesYoungRequest | apps/api/src/modules/data-rights/data-rights.service.ts:320-337 | a run in which the job anonymises a user who has just made a request |
| DataRights.ExecutionHappens | apps/api/src/modules/data-rights/data-rights.service.ts:317-337 | a pending request is executed by an undisturbed job if and only if thirty days are over |
| DataRights.CancelIsOwn | apps/api/src/modules/data-rights/data-rights.service.ts:279-294 | a cancellation goes on exactly if the pending request is its user's own |
| DataRights.ClearWipes | apps/api/src/modules/data-rights/data-rights.service.ts:386-396 | between the decision on a request and the deletion of the slot another request gets lost if and only if one is stored last |
| DataRights.NothingAfterClear | apps/api/src/modules/data-rights/data-rights.service.ts:296-337 | once the slot is deleted nothing is executed until a new request, not even by a job that had found the old schedule due |
| DeletionService.DataRightsService.UpsertEntry | apps/api/src/modules/data-rights/data-rights.service.ts:245-251 | one turn of the loop is one upsert of the protocol |
| DeletionService.DataRightsService.RequestDeletion | apps/api/src/modules/data-rights/data-rights.service.ts:232-266 | the loop stores one whole request when nothing comes between, or nothing without a tenant database |
| DeletionService.DataRightsService.ReadPending | apps/api/src/modules/data-rights/data-rights.service.ts:279-285 | the first read of a cancellation |
| DeletionService.DataRightsService.ReadOwner | apps/api/src/modules/data-rights/data-rights.service.ts:288-294 | its second read, which decides |
| DeletionService.DataRightsService.DeleteSlot | apps/api/src/modules/data-rights/data-rights.service.ts:297-307 | the deletion of the three rows, for a cancellation and for the job |
| DeletionService.DataRightsService.CancelDeletion | apps/api/src/modules/data-rights/data-rights.service.ts:271-311 | the three steps together clear the slot for its owner only |
| DeletionService.DataRightsService.ReadSchedule | apps/api/src/modules/data-rights/data-rights.service.ts:320-329 | the first read of the job |
| DeletionService.DataRightsService.ReadUser | apps/api/src/modules/data-rights/data-rights.service.ts:331-337 | its second read, which takes the user |
| DeletionService.DataRightsService.ProcessPendingDeletions | apps/api/src/modules/data-rights/data-rights.service.ts:317-399 | the three steps together execute at most the due request, once, and clear the slot |
| Slug.GeneratesSlug | apps/api/src/core/auth/auth.service.ts:773-781 | every text becomes lower-case letters, digits and single inner hyphens |
| Slug.SlugsAreFixed | apps/api/src/core/auth/auth.service.ts:773-781 | a text is left as it is if and only if it is a slug |
| Slug.Idempotent | apps/api/src/core/auth/auth.service.ts:773-781 | a second pass changes nothing |
| Slugifier.ChainIsOnePass | apps/api/src/core/auth/auth.service.ts:773-781 | the chain of replacements is a single pass that keeps letters and digits in lower case and remembers separators |
| Slugifier.SlugKeepsSurvivors | apps/api/src/core/auth/auth.service.ts:773-781 | without its hyphens a slug is the letters and digits of the text, in order and in lower case |
| Slugifier.HyphenBetween | apps/api/src/core/auth/auth.service.ts:773-781 | between two neighbouring letters or digits there is one hyphen if white space, an underscore or a hyphen stands between them, and nothing otherwise |
| Slugifier.SlugOfOne | apps/api/src/core/auth/auth.service.ts:773-781 | a single letter or digit is its own slug, whatever else stands around it |
| Slugifier.SlugOfTwoWords | apps/api/src/core/auth/auth.service.ts:773-781 | "Salon Rose" becomes "salon-rose" |
| Slug.TenantSlugNormal | apps/api/src/core/auth/auth.service.ts:123-127 | a tenant's slug is in normal form if and only if something of the English name survives, or there is none |
| Slug.UnnamedTenant | apps/api/src/core/auth/auth.service.ts:123-127 | a tenant without an English name is called salon |
| Slug.NamelessTenant | apps/api/src/core/auth/auth.service.ts:123-127 | the slug of the name `!` starts with a hyphen |
| Counting.CountIsExact | apps/api/src/core/roles/roles.service.ts:178-184 | the number of rows found equals the number requested if and only if the ids are distinct and all qualify |
| Counting.RejectedWithoutMissing | apps/api/src/modules/public/public.service.ts:122-128 | a rejected request names no missing id if and only if its only fault is a repeated id |
| Counting.MissingAreUnfound | apps/api/src/modules/public/public.service.ts:123-124 | the missing ids are exactly the requested ids that were not found |
| Counting.RepeatedServiceIsRejected | apps/api/src/modules/public/public.service.ts:122-128 | such a request |
| Counting.EstimateOrder | apps/api/src/modules/public/public.service.ts:103-134 | accepted if and only if the ids are distinct and active; the total is then the sum of the requested prices |
| Counting.TotalIsSum | apps/api/src/modules/public/public.service.ts:130-134 | the total is one price for one id and the sum of the parts for a list |
| Counting.RolesService.SetRolePermissions | apps/api/src/core/roles/roles.service.ts:162-200 | accepted if and only if the ids are distinct and exist and the role is no system role; the permissions then read back as the requested set, other roles keep theirs |

## Left out

- EmbedPreservesHash: takes the block's markup as pieces that end in `>` and do not close the block, and its values as texts without `<` and `$`; the XAdES text itself, the certificate fields and the escaping of issuer names are not part of this model.
- EmbedPreservesHash: documents that mention a removable block in or before their root tag are outside its hypothesis.
- InjectPreservesHash: assumes that the slot's attributes hold no `<`, as well-formed XML guarantees, and that the QR text is Base64.
- GenerateTLV: the UTF-8 encoding of texts and the Base64 encoding of the payload are not part of this model.
- AcceptsStandardCodes: counters from 2^31 on are left to CounterIsStandard.
- CodesAreContiguous: the month is a parameter of each call and rows are never deleted, as in the source.
- WriteStep: a claim's check and its update are two database calls; the model lets the update happen in any state, which covers every interleaving.
- HandleExpiry: a failure of the tenant search itself, and which of the messages were sent before a failure, are not part of this model.
- CreateOrder: the sequential version requires contiguous codes, which CodesAreContiguous shows for every reachable table; the order's copy of the services is not part of it.
- EveryRun: the administrator's direct edits (`updateSubscription`, `extendTrial`) are not among its events; its operations do not overlap, which RenewInTwoSteps and CancelInTwoSteps take up.
- RenewSubscription: calendar months and years are represented by the period end that is passed in; rows are ordered by creation, without ties of `createdAt`.
- PhasesMoveForward: sixty days are sixty times 24 hours, without daylight saving.
- GetResults: the rounded conversion rate is not part of this model; values are real numbers.
- UpdateStatus: experiments are values, so the object that a caller keeps after creating an experiment is not shared with the service.
- ProcessPendingDeletions: the anonymised rows are represented by the user they belong to; settings hold only what a request writes, never an unreadable date.
- GeneratesSlug: lower-casing outside ASCII is a table that yields no ASCII capital, and case rules that depend on context are left out.
- ParseInt: a sign or white space in front of the digits, which no code has, is left out.
- TryRefreshToken: the early return outside a browser, the storage's contents beyond what decides a branch, and the callers `ensureFreshToken` and `apiClient` are not part of this model.
- Cryptographic primitives, key generation, X.509, bcrypt and JWT signing are foreign calls.
- Logging, audit records, mail, messages over sockets, controllers, data transfer objects and user interfaces only move data.
- Login throttling, one-time passwords by mail and the refresh blacklist rest on a cache service that is not part of this model.
- The refresh of the administration client repeats the dashboard's protocol with another order of microtasks.
