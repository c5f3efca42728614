# Synthfi, modelled in Dafny

Synthfi is a trading client for Solana. It compares the order books of two venues, Serum and FTX, sends an order when
their prices cross by more than the fees, and carries the codecs, the transaction serialiser, the account batcher and
the on-chain registry program that this takes. This project models its self-contained algorithms and protocols and
proves what they are for.

Code that works by changing things in place is modelled in place: arrays, loops and classes, each method proved against
a specification function. Code that is an expression is a function. Where several parties interleave, a state machine
takes one step for each stretch of code between suspension points, and its theorems quantify over every run.

| files | subject |
|---|---|
| `Bytes`, `Radix`, `Base58`, `Base58Size`, `Base58Encoder`, `Base58Decoder`, `Base58RoundTrip` | Base58 text: radix conversion on digit arrays, and the digit estimate in double precision |
| `Base64`, `Base64Codec` | base64 text (section 4 of RFC 4648) |
| `Trading`, `Matching`, `ArbitrageWalk`, `ArbitrageReport`, `CrossedBooks`, `TakeStrategy` | the cross-venue walk, its optimality, what it reports as a sum over the books, and the one take order a run sends |
| `SerumSlab`, `SerumBook` | a crit-bit tree in an arena, and the order book made from it |
| `Crc32`, `FtxBook` | the bit-serial CRC-32, and the book edited in place |
| `Transaction`, `CompactArrays`, `StaticTransaction`, `DynamicTransaction` | the wire format of a transaction, and the constructors of its static and dynamic forms |
| `AccountBatcher` | chunked requests under every interleaving |
| `Registry` | the on-chain program over all runs |
| `MangoHealth` | account health and the margin it leaves |
| `WriteQueue` | the write queue of a web socket |

`dafny verify dfyconfig.toml` checks all of it.

## Where the code and its evident intent differ

The code is modelled as it is. For each of these a lemma says exactly when the intended property holds, and the
lemmas in parentheses after it give a failing input or run.

- Base58: a value of all zero bytes decodes one byte too long (`RoundTripBytes`, `RoundTripText`). A single byte of 58
  or more cannot be encoded, so some two-character texts do not come back, and neither can 2^30 bytes or more, because
  the buffer's size turns negative as an int (`EncodeFailsExactly`, `AcceptedIsShort`).
- Base64: the encoder's buffer is too small for inputs of one byte (`BufferSuffices`).
- Arbitrage: the report uses full level quantities, not remaining ones; `ReportIsUpperBound` says when it is exact
  (`ReportCanExceedBook`).
- FTX book: `UpdateCorrectExactly` says which updates do what they mean, `MessageCorrectExactly` which messages of
  distinct prices. Deleting an absent price in mid-book inserts a level of quantity zero, and an update behind the
  moving iterator breaks the order (`AbsentDeleteLeavesZero`, `OutOfReachBreaks`).
- CRC-32: bytes of 128 and more are sign-extended into the register; `RegisterIsTableExactly` says for which messages
  that cancels out, `ByteStepIsTableStep` for which bytes it does not happen.
- Compact lengths: two bytes carry 14 bits of a 16-bit length (`CompactRoundTrip`).
- Batcher: a reply shorter than its chunk is accepted; `AnswerIsLookup` says that an answer is right exactly when no
  reply was short (`ShortReplyLeavesHole`). A batch whose caller timed out is never removed; `LeftBehindExactly` says
  that these are all that stay behind (`TimeoutLeavesBatch`).
- Registry: a product's `size` is computed from the deposit struct and is never the populated size (`SizeIsPopulated`).
- Mango: outside the basket the margin is exact for long positions; for others it is negative, or beyond what is owed
  wrong (`MarginExactForLong`, `MarginExactForShort`), and `ShortMargin` is what it should be. In the basket it depends
  on which of the two cases is the worse (`MarginExactInBasket`, `MarginWhileBidsLead`). Where that is the bids, the
  position is divided by the price, which changes what the pair is worth unless the price is one (`FillsKeepWorth`).
- Write queue: after a failed reconnect timer no message is ever written again (`FaultIsForever`); `FaultExactly` says
  when that state is reached (`FaultHappens`).

## Model

| member | source | states |
|---|---|---|
| Base58.AlphabetOfDigit | src/synthfi/Util/StringEncode.hpp:28-46 | The alphabet and its map are inverse: a digit's character maps back to the digit. |
| Base58.DigitOfAlphabet | src/synthfi/Util/StringEncode.hpp:28-46 | The other direction: a character with a digit is that digit's character. |
| Base58.AlphabetIs | src/synthfi/Util/StringEncode.hpp:28-28 | The alphabet has 58 characters in ascending order: the digits and letters without 0, O, I and l. |
| Base58Encoder.ShiftIn | src/synthfi/Util/StringEncode.hpp:67-80 | One round rewrites the digit array in place so that its value, with the carry on top, is 256 times the old value plus the byte; digits past the new length stay zero. |
| Base58Encoder.Convert | src/synthfi/Util/StringEncode.hpp:65-81 | The conversion succeeds exactly when the number is below 58^size, and then the digits are worth the bytes. |
| Base58Encoder.SkipZeros | src/synthfi/Util/StringEncode.hpp:82-83 | The output starts at the first nonzero digit. |
| Base58Encoder.WriteText | src/synthfi/Util/StringEncode.hpp:89-92 | The output is a '1' for each leading zero byte, then the digits in the alphabet. |
| Base58Encoder.EncBase58 | src/synthfi/Util/StringEncode.hpp:50-95 | The text is '1' for each leading zero byte followed by the shortest base-58 numeral of the number, or empty when one of the two guards fails, the second with the buffer's size converted to an int. |
| Base58Decoder.MultiplyIn | src/synthfi/Util/StringEncode.hpp:113-122 | One round rewrites the little-endian bytes in place to 58 times their value plus the digit, with no leading zero. |
| Base58Decoder.DecodeDigits | src/synthfi/Util/StringEncode.hpp:106-126 | The bytes are worth the numeral up to the first character outside the alphabet. |
| Base58Decoder.AppendZeros | src/synthfi/Util/StringEncode.hpp:128-131 | One zero byte is appended for each leading '1'. |
| Base58Decoder.ReverseInPlace | src/synthfi/Util/StringEncode.hpp:133-139 | The swapping loop reverses the bytes, odd and even lengths alike. |
| Base58Decoder.DecBase58 | src/synthfi/Util/StringEncode.hpp:98-143 | The result is a zero byte per leading '1', then the shortest base-256 numeral of the number, zero having one byte. |
| Base58.DecodeLength | src/synthfi/Util/StringEncode.hpp:104-131 | No more bytes than characters, which is what the buffer holds, except that a text of only '1's gives exactly one more. |
| Base58Size.RoundedIsNearest | src/synthfi/Util/StringEncode.hpp:58-61 | The rounding used is that of double arithmetic: a double at most half the spacing away, the even one on a tie. |
| Base58Size.SizeExceeds | src/synthfi/Util/StringEncode.hpp:48-61 | The estimate exceeds the unrounded product: neither rounding loses a digit. |
| Base58Size.SizeEstimate | src/synthfi/Util/StringEncode.hpp:48-61 | 58^size is at least 256^m for every byte count m whose estimate is an int, though the double is smaller than log 256 / log 58: where it would fall short, the product is rounded up. |
| Base58Size.IntLimit | src/synthfi/Util/StringEncode.hpp:58-61 | Up to 1572489798 bytes, and not beyond, the estimate is an int. |
| Base58RoundTrip.EncodeFailsExactly | src/synthfi/Util/StringEncode.hpp:75-87 | For every byte string whose digit estimate is an int, encoding gives the empty text exactly for a single byte of 58 or more and for 2^30 bytes or more. |
| Base58RoundTrip.AcceptedIsShort | src/synthfi/Util/StringEncode.hpp:84-87 | No accepted byte string has 2^30 bytes. |
| Base58RoundTrip.DecodeOfEncoding | src/synthfi/Util/StringEncode.hpp:50-143 | Decoding an encoding returns the bytes, leading zeros included, and one zero too many if all are zero. |
| Base58RoundTrip.RoundTripBytes | src/synthfi/Util/StringEncode.hpp:50-143 | For every byte string the encoder accepts, bytes to text to bytes is the identity if and only if some byte is nonzero. |
| Base58RoundTrip.RoundTripKeys | src/synthfi/Core/KeyPair.hpp:20-110 | Every hash, key and signature (32 and 64 bytes), and every other string of at least two and less than 2^30 bytes, is accepted and makes the round trip. |
| Base58RoundTrip.EncodingOfDecode | src/synthfi/Util/StringEncode.hpp:50-143 | The numeral of what an alphabet-only text decodes to is that text, with one '1' too many if all are '1'. |
| Base58RoundTrip.RoundTripAcceptedText | src/synthfi/Util/StringEncode.hpp:50-143 | For every alphabet-only text whose bytes the encoder accepts, text to bytes to text is the identity if and only if some character is not '1'. |
| Base58RoundTrip.RoundTripText | src/synthfi/Util/StringEncode.hpp:50-143 | For every nonempty alphabet-only text the round trip is the identity if and only if it is neither all '1' nor a two-character numeral below 256, and decodes to less than 2^30 bytes. |
| Base64Codec.A3ToA4 | src/synthfi/Util/StringEncode.hpp:154-160 | Three bytes are split into four sextets, in place. |
| Base64Codec.A4ToA3 | src/synthfi/Util/StringEncode.hpp:162-167 | Four bytes are joined into three with the wrap-around of 8-bit shifts. |
| Base64Codec.PutTail | src/synthfi/Util/StringEncode.hpp:210-226 | One or two bytes left over give a padded quartet. |
| Base64Codec.EncBase64 | src/synthfi/Util/StringEncode.hpp:184-229 | The text carried through the 3-byte buffer is the recursive encoding of the bytes. |
| Base64Codec.PutBytes | src/synthfi/Util/StringEncode.hpp:250-280 | Characters held back give one byte fewer than there are. |
| Base64Codec.DecBase64 | src/synthfi/Util/StringEncode.hpp:231-284 | The bytes carried through the 4-character buffer are the recursive decoding of the text up to its first '='. |
| Base64.RoundTripBytes | src/synthfi/Util/StringEncode.hpp:184-284 | Bytes to text to bytes is the identity for every byte string, all three tails included. |
| Base64.RoundTripText | src/synthfi/Util/StringEncode.hpp:184-284 | Text to bytes to text is the identity if and only if the text is canonical. |
| Base64.EncodeIsCanonical | src/synthfi/Util/StringEncode.hpp:184-229 | Every encoding is canonical. |
| Base64.EncodeLength | src/synthfi/Util/StringEncode.hpp:179-182 | The output length is enc_base64_len of the input length. |
| Base64.AlphabetIs | src/synthfi/Util/StringEncode.hpp:149-152 | The alphabet is that of table 1 in section 4 of RFC 4648, character by character. |
| Base64.BufferSuffices | src/synthfi/Util/StringEncode.hpp:194-228 | The buffer of 2n characters suffices if and only if n is not 1. |
| Matching.ValueBounded | src/synthfi/Strategy/TakeStrategy/TakeStrategyImpl.cpp:267-320 | Weak duality at one venue: no taking within the level sizes is worth more than the sum of the sizes at their positive margins over a price, with equality for a tight taking. |
| ArbitrageWalk.Threshold | src/synthfi/Strategy/TakeStrategy/TakeStrategyImpl.cpp:267-320 | From every state of the loop there is a dual price that separates the levels it exhausts from those it leaves. |
| ArbitrageWalk.MatchFeasible | src/synthfi/Strategy/TakeStrategy/TakeStrategyImpl.cpp:301-319 | The match takes no more of any level of either book than is offered. |
| ArbitrageWalk.MatchTight | src/synthfi/Strategy/TakeStrategy/TakeStrategyImpl.cpp:267-320 | At the dual price the match takes all of each level better than it and nothing of each worse one, at both venues. |
| ArbitrageWalk.MatchOptimal | src/synthfi/Strategy/TakeStrategy/TakeStrategyImpl.cpp:267-320 | Greedy is optimal: for best-first books of positive quantities, no feasible allocation of volume across the two books earns more net of fees than the match. |
| ArbitrageReport.StaysInStep | src/synthfi/Strategy/TakeStrategy/TakeStrategyImpl.cpp:301-319 | Every step consumes the same, strictly positive volume from both books. |
| ArbitrageReport.WalkIsOverlaps | src/synthfi/Strategy/TakeStrategy/TakeStrategyImpl.cpp:255-320 | From any state, the fills still to come are exactly the profitable pairs of levels ahead whose stretches of cumulative volume overlap, each with its overlap. |
| ArbitrageReport.MatchIsOverlaps | src/synthfi/Strategy/TakeStrategy/TakeStrategyImpl.cpp:255-320 | The whole match in closed form, without the loop. |
| ArbitrageReport.WalkAdvances | src/synthfi/Strategy/TakeStrategy/TakeStrategyImpl.cpp:301-319 | The iterators only move forward, so no pair of levels is matched twice. |
| ArbitrageReport.ReportIsUpperBound | src/synthfi/Strategy/TakeStrategy/TakeStrategyImpl.cpp:290-299 | Reported quantity and profit are never below those matched, and equal to them if and only if every overlap of profitable levels is the whole of the smaller level. |
| ArbitrageReport.ReportCanExceedBook | src/synthfi/Strategy/TakeStrategy/TakeStrategyImpl.cpp:290-292 | A bid of 10 against asks of 6 and 6 is reported as 12. |
| CrossedBooks.WalkIsGrid | src/synthfi/Strategy/TakeStrategy/TakeStrategyImpl.cpp:255-320 | From any state of the loop, the volume and profit still to be reported are sums over all pairs of levels ahead: those that pay after fees of 0.0003 and 0.002 and share a stretch of cumulative volume, each at its smaller level size. |
| CrossedBooks.ReportIsCrossed | src/synthfi/Strategy/TakeStrategy/TakeStrategyImpl.cpp:248-320 | The same for the whole report: for books in order it is that double sum over the books, with no walk in it. |
| TakeStrategy.Strategy.MatchLoop | src/synthfi/Strategy/TakeStrategy/TakeStrategyImpl.cpp:248-320 | The loop's totals and trade price are the reported totals of the match and the price of its last Serum level. |
| TakeStrategy.Strategy.DoBookUpdate | src/synthfi/Strategy/TakeStrategy/TakeStrategyImpl.cpp:229-415 | An order is returned exactly when idle, both sides are nonempty and the reported profit reaches the minimum; the trading flag is set with it and otherwise kept. At a positive minimum the stored book of one venue has a bid above an ask of the other after both fees, and the order names side, pair, a stored Serum price and no more than the limit. |
| TakeStrategy.Strategy.OnSerumBook | src/synthfi/Strategy/TakeStrategy/TakeStrategyImpl.cpp:84-96 | The Serum book is stored in its place and both sides decided in turn, the second seeing the flag of the first; an order on either side pays as in DoBookUpdate. |
| TakeStrategy.Strategy.OnFtxBook | src/synthfi/Strategy/TakeStrategy/TakeStrategyImpl.cpp:98-110 | The same for an FTX book. |
| TakeStrategy.FirstOpportunityOnly | src/synthfi/Strategy/TakeStrategy/TakeStrategyImpl.cpp:364-388 | Over any run of one-sided updates at most one order goes out, for the first update that offers enough. |
| TakeStrategy.DecisionsSplit | src/synthfi/Strategy/TakeStrategy/TakeStrategyImpl.cpp:84-110 | A run of updates cut anywhere is its two parts, the second starting with the flag the first left. |
| TakeStrategy.AnswersAreDecisions | src/synthfi/Strategy/TakeStrategy/TakeStrategyImpl.cpp:84-110 | The answers of any sequence of book calls, each on the books and flag the last one left, are those of one run over all their comparisons. |
| TakeStrategy.OneOrderPerRun | src/synthfi/Strategy/TakeStrategy/TakeStrategyImpl.cpp:84-110 | Whatever books come in from either venue, at most one order goes out, for the first comparison that offers enough. |
| TakeStrategy.TradePriceIsWorst | src/synthfi/Strategy/TakeStrategy/TakeStrategyImpl.cpp:288-288 | No matched Serum level trades beyond the order's limit price. |
| TakeStrategy.OrderPays | src/synthfi/Strategy/TakeStrategy/TakeStrategyImpl.cpp:229-398 | For any books at all: at a positive minimum profit a Bid order needs some Serum bid above some FTX ask of the pair after both fees, an Ask order some FTX bid above some Serum ask, and it carries that side and pair, a stored price of that Serum side and a quantity within the limit. |
| TakeStrategy.DecideIsOwed | src/synthfi/Strategy/TakeStrategy/TakeStrategyImpl.cpp:364-398 | For books in order: there is an order if and only if both sides are nonempty and the double sum over crossed levels reaches the minimum; it is for the summed sizes up to the limit, at the worst Serum price among those levels. |
| TakeStrategy.AnswerIsOwed | src/synthfi/Strategy/TakeStrategy/TakeStrategyImpl.cpp:84-110 | An idle strategy answers a new book with what is owed to the Serum bids against the FTX asks, else with what is owed to the Serum asks against the FTX bids, the new book in place of its venue's; a trading one answers nothing. |
| SerumSlab.CritBitOrders | src/synthfi/Serum/SerumTypes.hpp:180-187 | Of two keys that agree above a bit, the bit is clear in the one and set in the other if and only if the one is the smaller 128-bit number, price high and sequence number low, and they part at that bit. |
| SerumSlab.RankedIsFinite | src/synthfi/Serum/SerumTypes.hpp:336-360 | When prefix lengths grow downwards no path has more than 128 inner nodes, so the recursion ends. |
| SerumSlab.AppendLeafNodes | src/synthfi/Serum/SerumTypes.hpp:336-360 | On every slab whose paths are bounded the recursion ends and appends the subtree's leaves, left before right, to the vector passed in. |
| SerumSlab.GetLeafNodes | src/synthfi/Serum/SerumTypes.hpp:301-306 | The list from the root. |
| SerumSlab.LeavesAscend | src/synthfi/Serum/SerumTypes.hpp:336-360 | On a crit-bit tree the keys come out in strictly ascending 128-bit order. |
| SerumSlab.LeavesAreReachable | src/synthfi/Serum/SerumTypes.hpp:336-360 | On every such slab, crit-bit tree or not, a leaf is listed if and only if some path of child choices leads to it. |
| SerumSlab.OnePathPerKey | src/synthfi/Serum/SerumTypes.hpp:336-360 | Two paths that lead to leaves of one key are the same path. |
| SerumSlab.SearchFindsListed | src/synthfi/Serum/SerumTypes.hpp:181-186 | Descending by the key's bits, with the `walk_down` step that these lines keep commented out, ends at a leaf of that key if and only if one is listed. |
| SerumBook.SortOrders | src/synthfi/Serum/SerumMarketDataClient/SerumMarketDataClientImpl.cpp:331-343 | A rearrangement with best prices first, equal prices in any order. |
| SerumBook.MergeStep | src/synthfi/Serum/SerumMarketDataClient/SerumMarketDataClientImpl.cpp:352-357 | One turn of the merge keeps the side the book of the orders read so far. |
| SerumBook.MergeLevels | src/synthfi/Serum/SerumMarketDataClient/SerumMarketDataClientImpl.cpp:350-357 | The merged side has one level for each price, strictly best first, holding all that the orders have at that price; total quantity and total worth are kept. |
| SerumBook.RearrangeKeepsQuantity | src/synthfi/Serum/SerumMarketDataClient/SerumMarketDataClientImpl.cpp:331-343 | Sorting changes neither the quantity at any price nor total quantity and worth, however ties fall. |
| SerumBook.BookOfRearranged | src/synthfi/Serum/SerumMarketDataClient/SerumMarketDataClientImpl.cpp:331-357 | The book of the sorted orders is the book of the orders as they came. |
| SerumBook.BookUnique | src/synthfi/Serum/SerumMarketDataClient/SerumMarketDataClientImpl.cpp:350-357 | There is only one such book. |
| SerumBook.LeafIsConserved | src/synthfi/Serum/SerumMarketDataClient/SerumMarketDataClientImpl.cpp:316-325 | Conversion keeps both native amounts of a leaf: quantity times ten to the base decimals is its lots times the base lot size, and price times quantity times ten to the quote decimals is limit price times lots times the quote lot size. |
| SerumBook.LeavesAreConserved | src/synthfi/Serum/SerumMarketDataClient/SerumMarketDataClientImpl.cpp:310-325 | So a side with the totals of the converted leaves holds the native amounts of them all. |
| SerumBook.Pow10Adds | src/synthfi/Serum/SerumMarketDataClient/SerumMarketDataClientImpl.cpp:320-325 | The scale factors are the powers of ten. |
| SerumBook.MarketDataClient.DoUpdateBook | src/synthfi/Serum/SerumMarketDataClient/SerumMarketDataClientImpl.cpp:296-357 | The published side is the book of the converted leaves and holds their native amounts: in base units the lots times the lot size, in quote units each price in lots times its lots times the quote lot size; the other side is unchanged. |
| SerumBook.MarketDataClient.OnOrderbookAccount | src/synthfi/Serum/SerumMarketDataClient/SerumMarketDataClientImpl.cpp:296-357 | End to end from the slab: the side is the book of all reachable leaves and holds their native amounts. |
| SerumBook.TraversalFollowsPrice | src/synthfi/Serum/SerumMarketDataClient/SerumMarketDataClientImpl.cpp:312-343 | Tree order is price order: asks arrive best first and bids worst first, before any sorting. |
| SerumBook.BookIsTradable | src/synthfi/Serum/SerumMarketDataClient/SerumMarketDataClientImpl.cpp:350-357 | Orders of positive size make a book that meets what the arbitrage walk requires. |
| Crc32.ByteLoop | src/synthfi/Ftx/FtxUtils.cpp:24-27 | The inner loop is eight shifts of the register. |
| Crc32.Crc32Checksum | src/synthfi/Ftx/FtxUtils.cpp:16-31 | The checksum is the complement of the register after all bytes, sign-extended as the source does. |
| Crc32.PolyIsGenerator | src/synthfi/Ftx/FtxUtils.cpp:18-18 | The constant is the CRC-32 generator with its bits reflected. |
| Crc32.DivisionIdentity | src/synthfi/Ftx/FtxUtils.cpp:16-31 | The reference division is one: over GF(2), p = quotient * generator + remainder. |
| Crc32.RemainderUnique | src/synthfi/Ftx/FtxUtils.cpp:16-31 | That identity determines quotient and remainder. |
| Crc32.FeedIsRemainder | src/synthfi/Ftx/FtxUtils.cpp:24-27 | Shifting a message bit by bit through the register leaves the remainder of the message polynomial, from any start. |
| Crc32.ChecksumIsRemainder | src/synthfi/Ftx/FtxUtils.cpp:16-31 | For every ASCII string the checksum, reflected, is the complemented remainder of the message times x^32 with its first 32 coefficients complemented. |
| Crc32.ByteStepIsTableStep | src/synthfi/Ftx/FtxUtils.cpp:21-28 | A byte's step equals the table-driven step of section 8 of RFC 1952 if and only if the byte is below 128. |
| Crc32.RegisterDrifts | src/synthfi/Ftx/FtxUtils.cpp:16-31 | On any message the bit-serial loop is the table-driven one plus a drift that depends on the bytes alone. |
| Crc32.RegisterIsTableExactly | src/synthfi/Ftx/FtxUtils.cpp:16-31 | The two agree on a message if and only if its drift is zero. |
| Crc32.RegisterIsTable | src/synthfi/Ftx/FtxUtils.cpp:16-31 | For every ASCII string the bit-serial loop equals the table-driven one. |
| FtxBook.ListingUnique | src/synthfi/Ftx/FtxMarketDataClient/FtxMarketDataClientImpl.cpp:119-168 | A price-to-quantity map has one sorted listing. |
| FtxBook.LowerBoundParts | src/synthfi/Ftx/FtxMarketDataClient/FtxMarketDataClientImpl.cpp:130-139 | On an ordered side the place searched for is the one `std::lower_bound` promises, and no other place is. |
| FtxBook.SearchSplits | src/synthfi/Ftx/FtxMarketDataClient/FtxMarketDataClientImpl.cpp:130-139 | The search from the moving iterator splits the whole side at the price when all before the iterator is better. |
| FtxBook.UpdateIsWrite | src/synthfi/Ftx/FtxMarketDataClient/FtxMarketDataClientImpl.cpp:130-166 | An update in reach, deleting only what is listed, turns the listing of a map into the listing of the map with that write or delete. |
| FtxBook.OutOfReachBreaks | src/synthfi/Ftx/FtxMarketDataClient/FtxMarketDataClientImpl.cpp:130-139 | An update behind the iterator leaves no strictly ordered side. |
| FtxBook.AbsentDeleteLeavesZero | src/synthfi/Ftx/FtxMarketDataClient/FtxMarketDataClientImpl.cpp:142-166 | Deleting a price that is not listed leaves a level of quantity zero. |
| FtxBook.UpdateCorrectExactly | src/synthfi/Ftx/FtxMarketDataClient/FtxMarketDataClientImpl.cpp:130-166 | The update is correct if and only if its price is in reach and a zero quantity names a listed price. |
| FtxBook.MessageIsWrites | src/synthfi/Ftx/FtxMarketDataClient/FtxMarketDataClientImpl.cpp:119-168 | A message of updates in book order whose deletes name listed prices turns the listing into that of the map with all its writes applied. |
| FtxBook.MessageCorrectExactly | src/synthfi/Ftx/FtxMarketDataClient/FtxMarketDataClientImpl.cpp:119-168 | A message of distinct prices, in any order, does so if and only if both guards hold for every update in turn: nothing later in it repairs a broken order or removes a zero level. |
| FtxBook.OrderedMessageExactly | src/synthfi/Ftx/FtxMarketDataClient/FtxMarketDataClientImpl.cpp:119-168 | A message in strict book order does so if and only if its deletes name listed prices. |
| FtxBook.BookRefinesMap | src/synthfi/Ftx/FtxMarketDataClient/FtxMarketDataClientImpl.cpp:82-184 | Over any run of snapshots and such messages the vector is the sorted, zero-free listing of the map they describe. |
| FtxBook.MarketDataClient.UpdateSide | src/synthfi/Ftx/FtxMarketDataClient/FtxMarketDataClientImpl.cpp:119-168 | The loop with its moving iterator edits the stored side as the specification says and leaves the other. |
| FtxBook.MarketDataClient.OnSnapshot | src/synthfi/Ftx/FtxMarketDataClient/FtxMarketDataClientImpl.cpp:82-117 | Both sides are replaced; the book is published exactly when its checksum agrees. |
| FtxBook.MarketDataClient.OnUpdate | src/synthfi/Ftx/FtxMarketDataClient/FtxMarketDataClientImpl.cpp:170-205 | Both sides are updated; published likewise. |
| Transaction.CompactRoundTrip | src/synthfi/Solana/Transaction.hpp:30-77 | A 16-bit length reads back, whatever follows it, if and only if it is below 2^14. |
| Transaction.InstructionRoundTrip | src/synthfi/Solana/Transaction.hpp:472-497 | An instruction reads back from its bytes, whatever follows. |
| Transaction.AccountRoles | src/synthfi/Solana/Transaction.hpp:537-555 | The three header counts cut the account table into the public keys of the writable signers, those of the read-only signers, the writable and the read-only accounts. |
| Transaction.MessageRoundTrip | src/synthfi/Solana/Transaction.hpp:523-566 | Roles, blockhash and every instruction read back from the message, each signer as the public key of its pair. |
| Transaction.TransactionRoundTrip | src/synthfi/Solana/Transaction.hpp:503-577 | A reader of the wire format recovers signatures, accounts by role, each signer as the public key of its pair, blockhash and all instructions, and finds the message right behind the signatures. |
| Transaction.SignaturesMatchAccounts | src/synthfi/Solana/Transaction.hpp:503-653 | What a validator checks: there are as many signatures as the message asks for, and each is one of the message as received, by a pair of the request whose public key is the account at its place in the table. |
| Transaction.BufferMeansCountsFit | src/synthfi/Solana/Transaction.hpp:503-577 | A transaction that fits the buffer has counts that fit their fields, so the round trip covers every one that can be sent. |
| DynamicTransaction.EncodeCompactU16 | src/synthfi/Solana/Transaction.hpp:46-59 | The length is written at the output position and nothing else changes. |
| CompactArrays.CompactU16Array | src/synthfi/Solana/Transaction.hpp:31-44 | The compile-time encoder gives the same bytes. |
| CompactArrays.DynamicCompactU16 | src/synthfi/Solana/Transaction.hpp:61-68 | So does the vector encoder. |
| CompactArrays.CompactPrefixFree | src/synthfi/Solana/Transaction.hpp:31-77 | Below 2^14 no encoded length begins another: equal texts that begin with two of them have the same length and the same rest. |
| CompactArrays.DynamicCompactArray | src/synthfi/Solana/Transaction.hpp:101-127 | The vector is filled exactly by the length and the elements. |
| CompactArrays.DynamicInstruction | src/synthfi/Solana/Transaction.hpp:472-497 | The instruction's vector is filled exactly by its wire format. |
| CompactArrays.StaticInstruction | src/synthfi/Solana/Transaction.hpp:190-218 | The packed members of a static instruction are the same bytes. |
| StaticTransaction.InstructionArray | src/synthfi/Solana/Transaction.hpp:320-341 | Each instruction is copied behind the last. |
| StaticTransaction.FillAccounts | src/synthfi/Solana/Transaction.hpp:277-308 | Four loops fill the account array by role. |
| StaticTransaction.SignInto | src/synthfi/Solana/Transaction.hpp:231-250 | Two loops fill the signature array in the signers' order. |
| StaticTransaction.StaticTransaction.constructor | src/synthfi/Solana/Transaction.hpp:354-449 | The object's bytes are the wire format of the request, and what is signed is exactly the members behind the signatures. |
| DynamicTransaction.WriteAccounts | src/synthfi/Solana/Transaction.hpp:532-556 | The account table is written, roles in order. |
| DynamicTransaction.WriteMessage | src/synthfi/Solana/Transaction.hpp:523-566 | The writes through one iterator amount to the message of the wire format, and nothing outside it changes. |
| DynamicTransaction.SignMessage | src/synthfi/Solana/Transaction.hpp:632-653 | One signature of the message for each signer, in order. |
| DynamicTransaction.DynamicTransaction.constructor | src/synthfi/Solana/Transaction.hpp:503-577 | The buffer holds the same wire format as the static object for the same request, and the signed span is exactly the bytes after the signatures. |
| AccountBatcher.CountIsTurns | src/synthfi/Solana/AccountBatcher/AccountBatcherImpl.cpp:46-67 | The quotient-and-remainder count is the number of turns the chunking loop makes. |
| AccountBatcher.StartsCount | src/synthfi/Solana/AccountBatcher/AccountBatcherImpl.cpp:46-93 | The chunks start at that many different places. |
| AccountBatcher.Batcher.CutIntoChunks | src/synthfi/Solana/AccountBatcher/AccountBatcherImpl.cpp:66-93 | The chunks sent ask for the request's keys, concatenated in order, each for at least one and at most a batch of them, and each is placed at the number of keys before it. |
| AccountBatcher.Batcher.Begin | src/synthfi/Solana/AccountBatcher/AccountBatcherImpl.cpp:37-93 | A request opens a batch under a new id, pending as many chunks as are sent, and the chunks sent cut up its keys in order; an empty one opens none. |
| AccountBatcher.Batcher.OnReply | src/synthfi/Solana/AccountBatcher/AccountBatcherImpl.cpp:121-164 | A reply is recorded in its batch only; the timer is cancelled with the last one. |
| AccountBatcher.Batcher.Finish | src/synthfi/Solana/AccountBatcher/AccountBatcherImpl.cpp:98-112 | The batch is taken out and its error thrown or its response returned. |
| AccountBatcher.TracksMore | src/synthfi/Solana/AccountBatcher/AccountBatcherImpl.cpp:142-155 | Copying a reply in keeps every place of the response as some reply gave it, or unset where none reached, whatever the replies' sizes. |
| AccountBatcher.HandleKeepsBatch | src/synthfi/Solana/AccountBatcher/AccountBatcherImpl.cpp:136-161 | A reply keeps its batch in step with the record of all replies: the countdown is the number of chunks still out, an error is set if and only if some reply was bad, and every place is as the replies gave it. |
| AccountBatcher.StepKeepsInv | src/synthfi/Solana/AccountBatcher/AccountBatcherImpl.cpp:37-164 | Every step of any request keeps every request consistent. |
| AccountBatcher.RunKeepsInv | src/synthfi/Solana/AccountBatcher/AccountBatcherImpl.cpp:37-164 | So does every run. |
| AccountBatcher.AnswersMatchKeys | src/synthfi/Solana/AccountBatcher/AccountBatcherImpl.cpp:66-164 | However replies of any number of requests interleave, an answered one had all its chunks answered without error and has one place per key: what a reply gave for that place where a reply reached it, unset where none did, and replies of the size asked for reach every place. |
| AccountBatcher.ChunksAreTheRequest | src/synthfi/Solana/AccountBatcher/AccountBatcherImpl.cpp:66-93 | In every run the chunks recorded for a request are its keys cut up in order. |
| AccountBatcher.AllRepliesAnswer | src/synthfi/Solana/AccountBatcher/AccountBatcherImpl.cpp:95-112 | Once every chunk has been answered, a request still waited for can finish, with an answer if and only if no reply was bad. |
| AccountBatcher.AnswerIsLookup | src/synthfi/Solana/AccountBatcher/AccountBatcherImpl.cpp:66-164 | For replies that look up the keys their chunks asked for, from the first on, the answer is the lookup of the whole request, in order, if and only if every reply has the size asked for. |
| AccountBatcher.FailureIsFinal | src/synthfi/Solana/AccountBatcher/AccountBatcherImpl.cpp:102-139 | One failed chunk is enough: the request is never answered. |
| AccountBatcher.ExpiredBatchStays | src/synthfi/Solana/AccountBatcher/AccountBatcherImpl.cpp:113-119 | From any consistent state, a batch is left behind in the end if and only if it was before or its timer expired in between. |
| AccountBatcher.LeftBehindExactly | src/synthfi/Solana/AccountBatcher/AccountBatcherImpl.cpp:95-119 | In every run from the start, the batches in the map that nobody waits for are exactly those whose timer expired. |
| AccountBatcher.TimeoutLeavesBatch | src/synthfi/Solana/AccountBatcher/AccountBatcherImpl.cpp:113-119 | A run that ends with every reply in and a batch that is never taken out. |
| AccountBatcher.ShortReplyLeavesHole | src/synthfi/Solana/AccountBatcher/AccountBatcherImpl.cpp:142-155 | A run in which a short reply is taken without an error and a place of the answer stays unset. |
| Registry.Program.InitSynthfi | program/src/synthesizer/synthesizer.c:44-74 | The instruction initialises a table exactly when its guards hold, and else changes nothing. |
| Registry.Program.InitProduct | program/src/synthesizer/synthesizer.c:76-122 | The same for linking a new product into a table. |
| Registry.Program.InitDepositAccount | program/src/synthesizer/synthesizer.c:124-167 | The same for linking a new deposit account into a product. |
| Registry.Program.Dispatch1 | program/src/synthesizer/synthesizer.c:179-194 | The command selects the instruction. |
| Registry.Program.Dispatch | program/src/synthesizer/synthesizer.c:196-211 | Too little data or another version is refused unchanged. |
| Registry.ExtendsKeeps | program/src/synthesizer/synthesizer.c:107-117 | Appending a link to an account that was zero keeps all links typed, unique and complete. |
| Registry.StepKeepsInv | program/src/synthesizer/synthesizer.c:44-211 | Every instruction over every choice of accounts, aliased or not, keeps the invariant. |
| Registry.RunKeepsInv | program/src/synthesizer/synthesizer.c:44-211 | So does every run. |
| Registry.LinkedExactlyOnce | program/src/synthesizer/synthesizer.c:76-167 | From zeroed accounts, in every reachable state, an account is linked if and only if it is an initialised product or deposit account, by one place of one account of the right type. |
| Registry.RunGrows | program/src/synthesizer/synthesizer.c:44-167 | Over any run magic, version and type once set never change and links are only appended. |
| Registry.ChangesAreSigned | program/src/synthesizer/synthesizer.c:13-25 | An account changes only in a successful instruction that lists it as signer and writable, and only if the program owns it. |
| Registry.FunderSigns | program/src/synthesizer/synthesizer.c:7-11 | A successful init command lists first an account that signed and is writable. |
| Registry.FailureChangesNothing | program/src/synthesizer/synthesizer.c:179-211 | A successful init command always changes something and a refused instruction nothing; that each init command refuses without a change is in the contracts of InitSynthfi, InitProduct and InitDepositAccount. |
| Registry.CountsAreBounded | program/src/synthesizer/synthesizer.h:21-22 | In every reachable state a table has at most 8 links, a product at most 64, a deposit account none. |
| Registry.TableCanBeMade | program/src/synthesizer/synthesizer.c:44-74 | A zeroed account of the program, 280 bytes or more, becomes an empty table of size 24 by one instruction, answered Success. |
| Registry.AllCanBeLinked | program/src/synthesizer/synthesizer.c:76-167 | Different zeroed accounts, up to 8 of 2208 bytes into an empty table or 64 of 96 bytes into an empty product, are all linked, in order, by one instruction each, every one answered Success; no other account changes. |
| Registry.ProductsCanBeAdded | program/src/synthesizer/synthesizer.c:44-122 | From zeroed accounts there is a run, every instruction answered Success, that makes a table of any number of products up to 8. |
| Registry.DepositsCanBeAdded | program/src/synthesizer/synthesizer.c:44-167 | And one that gives a product in a table any number of deposit accounts up to 64. |
| Registry.FullIsRefused | program/src/synthesizer/synthesizer.c:98-155 | A ninth product and a sixty-fifth deposit account are refused without a change. |
| Registry.SizeIsPopulated | program/src/synthesizer/synthesizer.c:112-164 | In every reachable state the size field is the populated size (24 + 32 count for a table) if and only if the account is not a product; a product's is stated exactly, wrap-around included. |
| MangoHealth.GetPositionComponent | src/synthfi/Mango/MangoTypes.cpp:119-138 | Each position is deposits less borrows at their indices, in whole tokens. |
| MangoHealth.PositionMoves | src/synthfi/Mango/MangoTypes.cpp:119-138 | Equal deposits and borrows at equal indices cancel; a deposit raises the position and a loan lowers it by its native units times its index over the unit. |
| MangoHealth.Evaluate | src/synthfi/Mango/MangoTypes.cpp:181-217 | The base and quote components of one pair: the larger of the two cases in the basket, the position itself outside. |
| MangoHealth.FillsKeepWorth | src/synthfi/Mango/MangoTypes.cpp:193-208 | In the basket, the case counted leaves what the pair holds, orders included, at its worth at the oracle price if and only if it is the asks, or the position is zero, or the price is one. |
| MangoHealth.FindPair | src/synthfi/Mango/MangoTypes.cpp:161-171 | The search gives the first pair with the base currency. |
| MangoHealth.GetHealthComponents | src/synthfi/Mango/MangoTypes.cpp:140-225 | The loop leaves, at the pair of each currency, the terms of that currency's last listing, zero elsewhere, and the sum of the quote parts; where repeated listings agree on the position, every listing's terms. |
| MangoHealth.WriteFills | src/synthfi/Mango/MangoTypes.cpp:151-217 | No turn overwrites the terms of another currency. |
| MangoHealth.GetHealthFromComponents | src/synthfi/Mango/MangoTypes.cpp:227-265 | The two passes together give health as a sum over currencies that mentions no component vector. |
| MangoHealth.Margins | src/synthfi/Mango/MangoWalletClient/MangoWalletClientImpl.cpp:128-145 | All margins are zero unless health is positive; then each is health over one less the weight of its base currency. |
| MangoHealth.MangoWalletClient.UpdatePositions | src/synthfi/Mango/MangoWalletClient/MangoWalletClientImpl.cpp:101-145 | The wallet's positions and margins after an update, as functions of the reference data. |
| MangoHealth.BuyMovesHealth | src/synthfi/Mango/MangoTypes.cpp:140-265 | Buying value v of a long position at the oracle price lowers recomputed health by v times one less the asset weight. |
| MangoHealth.MarginExactForLong | src/synthfi/Mango/MangoWalletClient/MangoWalletClientImpl.cpp:128-145 | For a long position outside the basket, asset weight below one and health positive: for every v, health recomputed after buying v stays non-negative if and only if v is within the margin. For any other position, liability weight above one, the margin is negative and not exact. |
| MangoHealth.MarginExactForShort | src/synthfi/Mango/MangoWalletClient/MangoWalletClientImpl.cpp:139-144 | For a position that is not long, both weights below one: the margin is exact if and only if it stays within what is owed or the weights agree. |
| MangoHealth.MarginExactInBasket | src/synthfi/Mango/MangoTypes.cpp:181-217 | For a long pair in the basket, its asks the worse case: the margin is exact for every purchase after which they still are, and at a price of at least one for every purchase. |
| MangoHealth.BidsMoveHealth | src/synthfi/Mango/MangoTypes.cpp:193-202 | While the bids are the worse case, buying value v lowers recomputed health by v times one less the weight over the price. |
| MangoHealth.MarginWhileBidsLead | src/synthfi/Mango/MangoTypes.cpp:193-202 | For such a purchase the margin tells right if and only if the limits by the weight and by the weight over the price agree on it. |
| MangoHealth.ShortMargin | src/synthfi/Mango/MangoWalletClient/MangoWalletClientImpl.cpp:139-144 | What a position that is not long really leaves to buy at a liability weight above one, as an if-and-only-if. |
| WriteQueue.WebSocket.SendMessage | src/synthfi/Io/WebSocket/WebSocketBase.hpp:47-59 | The message is queued, and a writer spawned exactly when it is the only one. |
| WriteQueue.WebSocket.Loop | src/synthfi/Io/WebSocket/WebSocketBase.hpp:145-164 | A writer ends on an empty queue, else starts writing its front, or waits when the socket is closed. |
| WriteQueue.WebSocket.OnTimer | src/synthfi/Io/WebSocket/WebSocketBase.hpp:151-164 | After the wait it writes the front, or ends on a fault leaving the queue. |
| WriteQueue.WebSocket.OnWritten | src/synthfi/Io/WebSocket/WebSocketBase.hpp:160-181 | A write done pops the front and loops; a failed one clears the queue and ends the writer. |
| WriteQueue.FrontIsThere | src/synthfi/Io/WebSocket/WebSocketBase.hpp:160-180 | The queue's front is never read, nor popped, when the queue is empty. |
| WriteQueue.StepKeepsInv | src/synthfi/Io/WebSocket/WebSocketBase.hpp:47-182 | Every step keeps the invariant on writers, queue and history. |
| WriteQueue.SingleWriter | src/synthfi/Io/WebSocket/WebSocketBase.hpp:47-182 | In every interleaving there are never two writers, and there is one if and only if the queue is nonempty and no timer has failed. |
| WriteQueue.FirstInFirstOut | src/synthfi/Io/WebSocket/WebSocketBase.hpp:47-182 | What was written is an in-order subsequence of what was submitted; every message has one fate or is still queued; gaps begin only at a failed write. |
| WriteQueue.NoLossWithoutError | src/synthfi/Io/WebSocket/WebSocketBase.hpp:166-180 | Submitted is written followed by queued if and only if no write failed. |
| WriteQueue.QueueDrains | src/synthfi/Io/WebSocket/WebSocketBase.hpp:145-182 | From every reachable state without a timer fault there is a run that writes all that is queued, in order, and ends the writer: one step for each message while the socket is open, two while it is closed. |
| WriteQueue.FaultIsForever | src/synthfi/Io/WebSocket/WebSocketBase.hpp:152-157 | After a timer fault nothing is written in any continuation and every message sent stays queued. |
| WriteQueue.FaultExactly | src/synthfi/Io/WebSocket/WebSocketBase.hpp:149-158 | A run ends in that state if and only if it began there or some writer's timer failed in it. |
| WriteQueue.FaultHappens | src/synthfi/Io/WebSocket/WebSocketBase.hpp:149-158 | A run from the start that gets there: one message, a closed socket, a failed timer. |

## Left out

- EncodeFailsExactly: for up to 1572489798 bytes, the most whose digit estimate is an int; beyond that the source's
  conversion of the estimate to int is undefined. The same limit stands in SizeEstimate and RoundTripText.
- SizeEstimate: double arithmetic without fused multiply-add.
- DecBase58: the counters of the reversal are ints in the source and would overflow from 2^31 bytes on. The buffer has
  one byte more than the source's; DecodeLength says exactly when the source's is exceeded.
- EncBase64: the buffer has two characters more than the source's; BufferSuffices says exactly when the source's is
  exceeded.
- MatchLoop: the source reads one level past the end of a book after its last level; the value is never used and is
  zero here. The running totals of cost and fees, which nothing reads, are not kept.
- DoBookUpdate: the source divides the maximum trade size by itself; for a maximum of zero the quotient is any number
  here, while the decimal type may give one that is not a number.
- UpdateSide: a zero quantity past the end of the side is refused by an assertion in the source; here it is the release
  build, which adds the level.
- LowerBound: a search from the front stands for `std::lower_bound`, which is the same on an ordered side
  (LowerBoundParts). On a side that an earlier update left out of order the library promises no place.
- SortOrders: an insertion sort stands for `std::sort`; only its contract is used.
- AppendLeafNodes: needs child indices inside the slab and some bound on the length of paths; on other slabs the
  source reads outside it or its recursion does not end.
- OnReply: requires a batch that still waits for a reply, which ReplyFindsBatch proves of every run.
- SignMessage: Ed25519 is an arbitrary function of key and message.
- UpdatePositions: requires a pair and a market for each currency with an oracle, and weights other than one at
  positive health, which the source indexes or asserts without checking.
- MarginExactInBasket: one direction only; a purchase after which the other case of the basket is the worse one is left
  to BuyChange, which gives the change of health for every purchase.
- Prices and quantities are real numbers; the source's 32-digit decimal floating type rounds.
- Characters are taken to be signed 8-bit numbers, as on the platforms the source is built for; the alphabet map's -1
  and the CRC's sign extension depend on it.
- The copy of the matching loop in src/synthfi/Strategy/BacktestStrategy/BacktestStrategyImpl.cpp:101-166 is the same
  walk and is not modelled twice.
- The comparison operator of Serum node keys orders by sequence number first; nothing modelled here uses it.
- FTX checksum strings: formatting of prices is a library's; the checksum is proved over any string, and the string a
  book is printed to is an arbitrary function of its sides.
- Conversion of open-order amounts from native units, and the wallet's statistics and callbacks.
- In the registry, accounts are neither closed nor reassigned to another owner; the two empty instructions succeed
  without effect; fields of products and deposit accounts that no instruction writes are not kept; the memory overlay
  of the structs is a typed record.
- Timers, sockets, strands and clocks: completions are steps that may come at any time, and code between two suspension
  points is one step.
- Event and request queues of Serum, their lot-size arithmetic and catch-up, reference-data clients, subscriptions,
  order clients, JSON, HTTP and TLS, key files, statistics and the user interface.
