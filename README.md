# Blackjack expected-value engine, modelled in Dafny

This project models the core of a small Rust engine that computes exact
expected values for blackjack decisions. The engine has these parts:

- **Cards.** Thirteen ranks plus a joker constant, four suits with colours,
  cards as value–suit pairs, and five player actions.
- **Hand.** A hand keeps a running base score with every ace counted as 1,
  an ace count and a card count. Its score and softness are derived from
  these counters.
- **Rules and dealer.** The table rules say which actions are legal. The
  dealer decision says when the dealer draws.
- **Shoes.** A shoe hands out cards:
  - a vector-backed shoe over a borrowed card vector;
  - a shoe built from count-weighted pickers, with one value picker and
    one suit picker per value;
  - an infinite shoe;
  - a tracker that counts the cards a shoe has popped.

  `cards_in_deck` fills a card vector with whole decks.
- **Action calculator.** It searches depth-first over the shoe. Each branch
  removes a card, recurses and reinserts the card, both in the shoe and in
  the hand.
- **Hashing.** Hashers turn game states (dealer hand, score, player hand,
  suitless shoe) into byte strings. Each one builds a list of bounded fields
  and passes it to `create_hash`, a mixed-radix fold written out as a bit
  vector. These hashes are the keys of a memo store.

**How the model represents a shoe.** Every shoe's contents are a 13×4 table
of counts (`Shoe.Table`), one cell per card. The shoe contract gives what
each operation does to that table: `PopStep`, `RemoveStep` and
`InsertStep`. `RandomShoe.GenericDirectShoe` is proved against all three,
and `Tracker.CardShoeTracker` through it. The other two shoes are not:
`DirectShoe.DirectActualShoe` never removes and its insert changes nothing,
as in the source, and `RandomShoe.InfiniteShoe` draws from an unchanging
full deck, so its insert leaves it as it was.

**How the state and the search are modelled.**

- Hands, pickers, shoes, the tracker and the memo store are classes whose
  methods update fields, as in the source.
- Loops stay loops. Each loop is proved against a pure specification
  function:
  - `HashOf` for `create_hash`;
  - `DescribeOf` for `fmt`;
  - `Search` for `get_index`;
  - `DeckCards` for `cards_in_deck`;
  - `BestEV`, `ActionEV` and `DealerEV` for the calculator.
- The expected-value search is split into methods. Each method proves that
  its result equals the specification function and that the shoe and hands
  are restored afterwards.
- Probabilities are `real`.
- Randomness is a draw number the caller passes in.

## Model

| member | source | states |
|---|---|---|
| Cards.Value.Index | src/cards/value.rs:10-12 | every value's index is at most 13, and only the joker has index 13 |
| Cards.ValuesIndexed | src/cards/value.rs:15-30 | `VALUES` has 13 entries, entry `i` has index `i`, it holds exactly the non-joker values, KING has index 12 and JOKER has 13 |
| Cards.ValueAt | src/cards/value.rs:30 | the rank at position `i` of `VALUES` has index `i` and is a rank |
| Cards.ValueAtIndex | src/cards/value.rs:15-30 | each rank is found in `VALUES` at its own index |
| Cards.DescInjective | src/cards/value.rs:15-28 | the description strings ("ace" … "king", "joker") tell values apart |
| Cards.IndexInjective | src/cards/value.rs:15-28 | the index fields tell values apart |
| Cards.SuitsIndexed | src/cards/suit.rs:21-35 | `SUITS` lists each suit once at its index; spades and clubs are black, hearts and diamonds red; the suit descriptions and SPADE's index 0 match the suit test |
| Cards.SuitAtIndex | src/cards/suit.rs:21-26 | each suit is found in `SUITS` at its own index |
| Hand.ScoreForValue | src/hand.rs:6-9 | a rank scores between 1 and 10, and scores 1 exactly when it is the ace |
| Hand.ScoreIsTableEntry | src/hand.rs:6-9 | the score is the entry of `INDEX_TO_SCORE` at the value's index |
| Hand.ScoreByIndex | src/hand.rs:6 | two to nine score index + 1 (their face value); ten through king score 10 |
| Hand.ScoreTable | src/hand.rs:6 | the score of every rank, one by one |
| Hand.ScoreMeaning | src/hand.rs:41-50 | a hand is soft iff it has an ace and base + 10 ≤ 21; a soft score is base + 10 and at most 21, a hard score is the base; a score above 21 is never soft |
| Hand.AddRaisesBase | src/hand.rs:58-65 | every added card strictly raises the base score |
| Hand.HandTestSequence | src/hand.rs:99-124 | the hand test: empty 0 hard; TEN 10 hard; + ACE 21 soft; + TWO 13 hard; + KING 23, four cards |
| Hand.StatsOfAppend | src/hand.rs:58-65 | appending a card changes the counters computed from the cards as `addCard` changes the stored counters |
| Hand.StatsOfSwapRemove | src/hand.rs:67-84 | `swap_remove` of a card takes exactly that card's score, ace and count out of the counters computed from the cards |
| Hand.AddThenRemove | src/hand.rs:58-84 | removing, by `swap_remove`, the first copy of a card that was just appended gives the original card list back |
| Hand.BJHandImpl.constructor | src/hand.rs:88-96 | a new hand has no cards, base 0, no aces, length 0 and split number 0 |
| Hand.BJHandImpl.Len | src/hand.rs:51-54 | `len` is the number of cards held; the counter and the vector agree (a class invariant) |
| Hand.BJHandImpl.AddCard | src/hand.rs:58-65 | the card is appended and the counters move as `Add` says: base + score, length + 1, aces + 1 exactly for an ace; the counters keep agreeing with the cards |
| Hand.BJHandImpl.RemoveCard | src/hand.rs:67-84 | found iff an equal card is held; if found, the first equal card is swap-removed and adding it back to the counters gives the old counters; if not found, nothing changes |
| Rules.New | src/rules.rs:8-12 | the default rules disable surrender |
| Rules.NewComplex | src/rules.rs:14-18 | the surrender flag is the one given |
| Rules.OnlySurrenderDiffers | src/rules.rs:20-46 | rules differ only in surrender: doubling (two cards), splitting (split number < 4), hitting and the dealer's rule agree; the payout is 1.5; no dealer blackjack check after the hand; surrender, when allowed, needs a two-card hand |
| Rules.SurrenderRules | src/rules.rs:8-30 | the default rules never allow surrender; with surrender enabled it is allowed exactly on an unsplit two-card hand |
| Rules.BlackjackIsSoft | src/rules.rs:40-52 | a hand of two unsplit cards scoring 21 cannot be hit, can be doubled, is soft and has base 11 |
| Rules.HitBounds | src/rules.rs:32-42 | the dealer hits exactly below 17; whenever the dealer would hit, a player could too; a hittable hand has base below 21 |
| Dealer.ShouldDealMeaning | src/dealer.rs:7-21 | the dealer draws iff the score is below 17 or is a soft 17, and the `hit_soft17` flag makes no difference |
| Dealer.ShouldDealBound | src/dealer.rs:12-21 | a hand the dealer draws to has base at most 16 |
| Dealer.DecisionAgainstRules | src/dealer.rs:12-21 | whenever the table rules hit the dealer, this decision deals too; the two differ exactly on a soft 17 |
| Dealer.DealerTestSequence | src/dealer.rs:24-42 | the dealer test: empty, TEN, TEN+TWO, TEN+TWO+ACE draw; + KING (23) stands |
| Hasher.NewRange | src/hand_hasher.rs:39-47 | a field is built only with at least two values and a current value below the maximum, and it keeps both |
| Hasher.Dyn.Add | src/hand_hasher.rs:91-106 | adding to the switching number gives the exact natural sum; the result stays a `u64` exactly while the sum is below 2^64 |
| Hasher.Dyn.Mul | src/hand_hasher.rs:108-126 | multiplying gives the exact product; the result stays a `u64` exactly while the product is below 2^64 |
| Hasher.Dyn.Shr | src/hand_hasher.rs:128-139 | a right shift by `n` divides by 2^n and keeps the representation |
| Hasher.Dyn.IsZero | src/hand_hasher.rs:59-68 | zero in either representation iff the value is 0 |
| Hasher.Dyn.IsOdd | src/hand_hasher.rs:69-78 | odd in either representation iff the value is odd |
| Hasher.Dyn.Bits | src/hand_hasher.rs:79-88 | `bits` is the least `n` with value < 2^n |
| Hasher.BitLengthBound | src/hand_hasher.rs:79-88 | a number is below 2^bits and, when positive, at least 2^(bits−1) |
| Hasher.RangesEqual | src/hand_hasher.rs:30-35 | field lists with the same maxima and the same current values are equal |
| Hasher.MaxFoldIsProduct | src/hand_hasher.rs:148-149 | the bound fold `bits * max + (max − 1)` is the product of the maxima minus 1 |
| Hasher.FoldRoundTrip | src/hand_hasher.rs:144-150 | the fold `val * max + cur` of valid fields is below the product of the maxima and unfolds back to the current values |
| Hasher.ToBitsRoundTrip | src/hand_hasher.rs:151-157 | writing a number below 2^len as `len` bits, least significant first, and reading them back gives the number |
| Hasher.PackByteWeights | src/hand_hasher.rs:158 | in each byte, bit `j` of the chunk has weight 128 >> j; missing bits count 0 |
| Hasher.UnpackPack | src/hand_hasher.rs:158 | unpacking packed bytes gives the bits back, followed only by padding |
| Hasher.HashRoundTrip | src/hand_hasher.rs:141-159 | decoding a hash with its own maxima recovers every current value |
| Hasher.HashInjective | src/hand_hasher.rs:141-159 | for fixed maxima, two field lists have equal hashes exactly when they are equal |
| Hasher.HashLength | src/hand_hasher.rs:151-158 | the hash length is (bits(product − 1) + 7) / 8 bytes, fixed by the maxima |
| Hasher.CreateHash | src/hand_hasher.rs:141-159 | the loops of `create_hash` compute exactly `HashOf` of the ranges |
| Hasher.FoldRanges | src/hand_hasher.rs:142-150 | the first loop leaves the fold of the ranges and the product of the maxima minus 1, whatever representation each number reaches |
| Hasher.WriteBits | src/hand_hasher.rs:151-157 | the halving loop sets exactly the bits of the value, least significant first, in a vector of the bound's bit length |
| Hasher.BitStep | src/hand_hasher.rs:153-157 | one halving: the low bit comes first, followed by the bits of the half |
| HasherTests.TestSingleByte | src/hand_hasher.rs:334-345 | (2,1), (4,1), (128,1) and (256,1) each hash to [128] |
| HasherTests.TestTwoBytes | src/hand_hasher.rs:346-353 | (257,1) hashes to [128, 0] and (257,256) to [0, 128] |
| HasherTests.TestZeros | src/hand_hasher.rs:355-373 | [(2,0),(2,0)] and [(2,0),(128,0)] hash to [0]; [(2,0),(128,0),(2,0)] hashes to [0, 0] |
| HasherTests.TestThreeRanges | src/hand_hasher.rs:374-380 | [(2,1),(16,15),(8,7)] hashes to [255] |
| HasherTests.ZeroHash | src/hand_hasher.rs:141-159 | all-zero current values fold to 0 and hash to zero bytes only |
| HasherTests.TestOneBit | src/hand_hasher.rs:334-345 | a single field (2^k, 1) with k from 1 to 8 hashes to [128] |
| HasherTests.NineBits | src/hand_hasher.rs:346-353 | a field with 257 to 512 values takes two bytes: the first eight bits and the ninth |
| HandHashers.ClampScore | src/hand_hasher.rs:167-169 | a clamped score is at most 22 |
| HandHashers.ClampScoreEquiv | src/hand_hasher.rs:167-169 | two scores clamp alike iff they are equal or both at least 22; scores up to 22 are kept |
| HandHashers.CardsBucket | src/hand_hasher.rs:170-178 | the card count falls in one of three buckets |
| HandHashers.DealerRanges | src/hand_hasher.rs:170-191 | the dealer key is three valid fields with 3, 23 and 2 values |
| HandHashers.DealerHashEquiv | src/hand_hasher.rs:162-196 | two dealer hands hash alike iff they agree on the one / two / more card bucket, the clamped score, and softness counted only where the rules hit that soft score |
| HandHashers.ScoreRanges | src/hand_hasher.rs:206-212 | the score key is one valid field with 23 values |
| HandHashers.ScoreHashEquiv | src/hand_hasher.rs:201-217 | two hands hash alike iff their clamped scores are equal |
| HandHashers.DoubleRanges | src/hand_hasher.rs:255-260 | the double counter is a field with max doubles + 1 values, present only when doubles are allowed |
| HandHashers.SplitRanges | src/hand_hasher.rs:262-269 | splits done and splits to solve are two fields with split limit + 1 values, present only when the limit is positive |
| HandHashers.ActionRanges | src/hand_hasher.rs:270-278 | with actions included, five two-valued legality fields; otherwise none |
| HandHashers.PlayerRadices | src/hand_hasher.rs:252-280 | under one set of rules every hand's player key has the same maxima |
| HandHashers.ActionRangesEqual | src/hand_hasher.rs:270-278 | the legality fields of two hands are equal iff the hands agree on the legality of all five actions |
| HandHashers.PlayerHashEquiv | src/hand_hasher.rs:224-290 | two player hands hash alike iff they agree on clamped score and softness, on the double count when doubles are allowed, on both split counters when splits are, and on all five legality bits when actions are included |
| HandHashers.HashImpl | src/hand_hasher.rs:224-281 | pushing the fields in order and hashing them yields `PlayerHash` |
| HandHashers.DeckRanges | src/hand_hasher.rs:303-306 | a finite shoe's key is thirteen valid fields, each with max count + 1 values |
| HandHashers.DeckHashEquiv | src/hand_hasher.rs:299-310 | every state of an infinite shoe hashes alike; two finite shoes with the same maximum hash alike exactly when their thirteen value counts are equal |
| HandHasherTests.TestDealerHashAlike | src/hand_hasher.rs:411-430 | default rules: TEN+SIX with EIGHT+EIGHT, ACE+SEVEN with TEN+EIGHT, ACE+SIX with TEN+SEVEN hash alike |
| HandHasherTests.TestDealerHashApart | src/hand_hasher.rs:431-440 | default rules: ACE+SEVEN vs TEN+SEVEN and ACE+THREE vs TEN+FOUR hash apart |
| HandHasherTests.TestDealerHashSoft17 | src/hand_hasher.rs:442-453 | with the dealer hitting soft 17, ACE+SIX and TEN+SEVEN hash apart while ACE+SEVEN and TEN+EIGHT stay alike |
| HandHasherTests.PlayerEqual | src/hand_hasher.rs:224-281 | hands that agree on every field hash alike |
| HandHasherTests.PlayerDifferSoft | src/hand_hasher.rs:231-234 | hands of different softness hash apart |
| HandHasherTests.PlayerDifferAction | src/hand_hasher.rs:270-278 | hands that differ on one action's legality hash apart |
| HandHasherTests.TestPlayerHashApart | src/hand_hasher.rs:461-492 | default rules: TEN+SIX vs EIGHT+EIGHT, TEN+TWO+TWO vs FOUR+TEN, ACE+SEVEN vs EIGHT+TEN hash apart |
| HandHasherTests.TestPlayerHashAlike | src/hand_hasher.rs:468-478 | default rules: TEN+FOUR with EIGHT+SIX and with FOUR+TEN hash alike |
| HandHasherTests.TestPlayerHashNoExtras | src/hand_hasher.rs:494-500 | without doubling, splitting or surrender, TEN+TWO+TWO and FOUR+TEN hash alike |
| HandHasherTests.TestInfiniteDeckHash | src/hand_hasher.rs:504-521 | an infinite shoe hashes to [0] before and after a pop |
| HandHasherTests.TestDeckHashOrder | src/hand_hasher.rs:550-584 | taking a TEN from one full deck and a FOUR from another gives different hashes; taking the other card from each gives equal hashes |
| HashDatabase.Lookup | src/hash_database.rs:22-27 | a lookup finds a value iff the key is stored, and then finds the stored value |
| HashDatabase.InMemoryHashDatabase.constructor | src/hash_database.rs:14-18 | a new database is empty |
| HashDatabase.InMemoryHashDatabase.Get | src/hash_database.rs:22-27 | `get` is the lookup in the stored map |
| HashDatabase.InMemoryHashDatabase.Store | src/hash_database.rs:28-30 | `store` maps the key to the new value, leaves every other key alone and returns the previous value, or None for a fresh key |
| HashDatabase.InMemoryHashDatabase.Len | src/hash_database.rs:31-33 | `len` is the number of distinct keys, as a 32-bit unsigned integer |
| HashDatabase.StoreAllKeys | src/hash_database.rs:28-30 | after any sequence of stores the keys are the old keys plus every key stored |
| HashDatabase.StoreAllLookup | src/hash_database.rs:22-30 | a key never stored keeps its old lookup; the last store of a key decides what `get` finds |
| HashDatabase.DistinctKeysCounted | src/hash_database.rs:28-33 | storing into an empty database leaves one entry per distinct key |
| HashDatabase.NoOpDatabase.Get | src/hash_database.rs:40-42 | the no-op database never finds a value |
| HashDatabase.NoOpDatabase.Store | src/hash_database.rs:43-45 | the no-op store never reports a previous value |
| HashDatabase.NoOpDatabase.Len | src/hash_database.rs:46-48 | the no-op database is always empty |
| HashDatabase.TestInMemory | src/hash_database.rs:57-65 | the database test: two fresh stores return None, `get` finds 10, re-storing returns 10 and `get` then finds 30 |
| Shoe.TakeFacts | src/shoe/shoe.rs:5-10 | taking a card removes exactly one copy of it: its value count and the length drop by one, every other card and value is unchanged, and putting it back restores the table |
| Shoe.PutFacts | src/shoe/shoe.rs:5-10 | inserting a card adds exactly one copy, and taking it again restores the table |
| Shoe.TotalZero | src/shoe/shoe.rs:7 | a shoe has length 0 exactly when it holds no copy of any card |
| Shoe.CountPositive | src/shoe/shoe.rs:8-9 | a value's count is positive iff some suit of it is held, and it never exceeds the length |
| Shoe.FullDeckFacts | src/shoe/shoe.rs:42-45 | `n` decks hold every card `n` times, `4n` of each value, `52n` in all |
| Shoe.ParseNatToString | src/shoe/shoe.rs:20 | a count's decimal text reads back as the count |
| Shoe.Fmt | src/shoe/shoe.rs:17-25 | the loop appends count, description and a space for each value in `VALUES` order |
| Shoe.FmtInjective | src/shoe/shoe.rs:17-25 | two shoes with the same `fmt` text have the same count of every value |
| Shoe.DescribeInjective | src/shoe/shoe.rs:19-23 | the text for any list of values determines each listed count |
| DirectShoe.CountInBySuit | src/shoe/directshoe.rs:22-30 | the cards matching a value's index are the copies of that value in its four suits |
| DirectShoe.DeckValueCount | src/shoe/directshoe.rs:22-30 | over `n` decks the count of each value is 4n, as the shoe contract's full-deck table says |
| DirectShoe.DirectActualShoe.constructor | src/shoe/directshoe.rs:39-44 | the shoe borrows the given vector |
| DirectShoe.DirectActualShoe.Pop | src/shoe/directshoe.rs:16-18 | `pop` hands out and drops the last card, or None with the vector left empty; the popped value's count drops by one |
| DirectShoe.DirectActualShoe.Len | src/shoe/directshoe.rs:19-21 | `len` is the vector's length |
| DirectShoe.DirectActualShoe.Count | src/shoe/directshoe.rs:22-30 | the loop counts the cards whose value index is `v`'s |
| DirectShoe.DirectActualShoe.Remove | src/shoe/directshoe.rs:31-33 | `remove` always gives None |
| DirectShoe.DirectActualShoe.Insert | src/shoe/directshoe.rs:34-35 | `insert` leaves the vector unchanged |
| DirectShoe.TestDirect | src/shoe/directshoe.rs:46-56 | a shoe over an empty vector has length 0, as the source test checks; the model adds that over one deck it has 52 cards, four aces and four kings |
| Deck.CardVec.Clear | src/shoe/deck.rs:6 | clearing empties the vector |
| Deck.CardVec.Push | src/shoe/deck.rs:11 | pushing appends one card |
| Deck.CardVec.Pop | src/shoe/directshoe.rs:16-18 | popping removes and returns the last card, or None on an empty vector |
| Deck.CardsInDeck | src/shoe/deck.rs:5-16 | the vector is cleared and refilled with `n` decks, each suit by suit in `SUITS` order and value by value in `VALUES` order; the same vector is returned |
| Deck.DeckOrder | src/shoe/deck.rs:8-14 | position 52d + 13·suit + value of the run holds that card |
| Deck.DeckMultiplicity | src/shoe/deck.rs:8-14 | `n` decks hold every card exactly `n` times, as many as the full-deck table |
| Deck.NoJoker | src/shoe/deck.rs:8-14 | no run of decks holds a joker |
| Deck.OneDeckLayout | src/shoe/deck.rs:9-13 | within a deck card `c` sits exactly at 13·suit + value |
| Deck.TestDecks | src/shoe/deck.rs:18-23 | two decks are 104 cards |
| Tracker.Empty | src/cardshoetracker.rs:7 | the empty table has every cell 0 and no cards |
| Tracker.CardShoeTracker.constructor | src/cardshoetracker.rs:6-9 | a tracker over a shoe starts with every counter at 0 |
| Tracker.CardShoeTracker.Pop | src/cardshoetracker.rs:12-19 | the wrapped shoe pops as the shoe contract says; a card it hands out adds one to that value and suit's counter, a None changes no counter |
| Tracker.CardShoeTracker.Len | src/cardshoetracker.rs:20-22 | `len` is the wrapped shoe's length |
| Tracker.CardShoeTracker.Count | src/cardshoetracker.rs:23-25 | `count` is the wrapped shoe's count |
| Tracker.CardShoeTracker.Remove | src/cardshoetracker.rs:26-28 | `remove` is the wrapped shoe's remove, and (by its frame) no counter changes |
| Tracker.CardShoeTracker.Insert | src/cardshoetracker.rs:29-31 | `insert` is the wrapped shoe's insert, and no counter changes |
| Tracker.CardShoeTracker.CountValue | src/cardshoetracker.rs:50-56 | the loop sums the four suit counters of a value: the number of that value popped |
| Tracker.CardShoeTracker.SeenCards | src/cardshoetracker.rs:57-63 | summing `count_value` over the thirteen values gives the number of successful pops |
| Tracker.RowsStep | src/cardshoetracker.rs:57-63 | each value's count extends the running total by one row |
| Picker.FindMeaning | src/shoe/randomshoe.rs:128-145 | the cumulative search hits iff the target is below the listed sum; a hit is a listed index with a positive count, and it is the index whose cumulative interval holds the target |
| Picker.FindFromMeaning | src/shoe/randomshoe.rs:132-139 | the same, from any position whose running total is at most the target |
| Picker.FairDraw | src/shoe/randomshoe.rs:128-145 | when every index is listed once, index `l[j]` is found for exactly `count(l[j])` targets, those in its own interval |
| Picker.ListedSumCovers | src/shoe/randomshoe.rs:114-200 | a list naming every positive index adds up to at least the total, and to exactly the total when no index repeats |
| Picker.SearchPruned | src/shoe/randomshoe.rs:140-142 | the walk drops only entries with a zero count and keeps the list free of repeats |
| Picker.SearchFind | src/shoe/randomshoe.rs:128-145 | the walk's answer is the cumulative search over the list it leaves behind |
| Picker.DrawStep | src/shoe/randomshoe.rs:154-176 | a draw below the size finds a positive index, and taking one of it keeps size, counts and list consistent |
| Picker.ListedWhenPositive | src/shoe/randomshoe.rs:148-153 | a positive size implies a non-empty list, so the list check never turns away a non-empty picker |
| Picker.RandomItemPicker.constructor | src/shoe/randomshoe.rs:114-126 | `new(c, m)` gives `m` indices with count `c`, all listed once, and size `c·m` |
| Picker.RandomItemPicker.GetIndex | src/shoe/randomshoe.rs:128-145 | `get_index` is the walk `Search`: the pruned list and the answer; the counts and the size stay |
| Picker.RandomItemPicker.Scan | src/shoe/randomshoe.rs:129-144 | the while loop with its running total and `swap_remove` computes `Search` |
| Picker.RandomItemPicker.SearchOutcome | src/shoe/randomshoe.rs:128-145 | after the walk every positive index is still listed, only zero-count entries are gone, an answer is a positive index, and a target below the size always gets one |
| Picker.RandomItemPicker.Count | src/shoe/randomshoe.rs:180-182 | `count(v)` is the stored count |
| Picker.RandomItemPicker.Len | src/shoe/randomshoe.rs:202-204 | `len` is the sum of the counts |
| Picker.RandomItemPicker.Remove | src/shoe/randomshoe.rs:183-193 | true iff the count was positive, and then exactly that count and the size drop by one; false changes nothing; fairness is kept |
| Picker.RandomItemPicker.InsertAsWritten | src/shoe/randomshoe.rs:194-200 | the source's `insert`: count and size rise by one, and the index is listed again whenever its count was 0 |
| Picker.RandomItemPicker.Insert | src/shoe/randomshoe.rs:194-200 | count and size rise by one, and the index is listed again only if it is not listed; fairness is kept |
| Picker.RandomItemPicker.Value | src/shoe/randomshoe.rs:147-179 | None iff the size is 0; otherwise the index found for `draw % size` has a positive count, which drops by one with the size; fairness is kept |
| Picker.AsWrittenSkew | src/shoe/randomshoe.rs:194-200 | with the source's `insert`, a short trace lists index 1 twice with counts [1, 1], and both targets 0 and 1 find index 1 |
| Picker.CorrectedTrace | src/shoe/randomshoe.rs:194-200 | the same trace with the corrected `insert` keeps the list free of repeats, and targets 0 and 1 find indices 1 and 0 |
| Picker.RemoveThenReinsert | src/shoe/randomshoe.rs:183-200 | new(1,2), remove(1), insert(1), remove(0) leaves counts [0, 1] with list [0, 1], or [0, 1, 1] with the source's `insert` |
| RandomShoe.CycleSuitPicker.constructor | src/shoe/randomshoe.rs:29-35 | the cycle starts at 0 |
| RandomShoe.CycleSuitPicker.Suit | src/shoe/randomshoe.rs:38-41 | the counter rises by one and the suit at the new counter mod 4 is returned |
| RandomShoe.CycleSuitPicker.Insert | src/shoe/randomshoe.rs:42-44 | `insert` changes nothing |
| RandomShoe.CycleSuitPicker.Count | src/shoe/randomshoe.rs:45-47 | every suit counts 1 |
| RandomShoe.CycleSuitPicker.Remove | src/shoe/randomshoe.rs:48-50 | `remove` gives the same suit back |
| RandomShoe.CycleSuitPicker.Len | src/shoe/randomshoe.rs:51-53 | `len` is 4 |
| RandomShoe.CycleCoversSuits | src/shoe/randomshoe.rs:38-41 | any four successive turns hand out all four suits |
| RandomShoe.TestCycleSuitPicker | src/shoe/randomshoe.rs:374-386 | four draws give four distinct suits and `len` is 4 |
| RandomShoe.RandomValuePicker.Value | src/shoe/randomshoe.rs:81-84 | the value at `draw % 13` in `VALUES` |
| RandomShoe.RandomValuePicker.Count | src/shoe/randomshoe.rs:85-88 | every value counts 4 |
| RandomShoe.RandomValuePicker.Remove | src/shoe/randomshoe.rs:89-91 | `remove` gives the same value back |
| RandomShoe.RandomValuePicker.Len | src/shoe/randomshoe.rs:95-98 | `len` is 52 |
| RandomShoe.RandomSuitPicker.Suit | src/shoe/randomshoe.rs:59-62 | the suit at `draw % 4` |
| RandomShoe.RandomSuitPicker.Count | src/shoe/randomshoe.rs:66-68 | every suit counts 1 |
| RandomShoe.RandomSuitPicker.Remove | src/shoe/randomshoe.rs:69-71 | `remove` gives the same suit back |
| RandomShoe.RandomSuitPicker.Len | src/shoe/randomshoe.rs:72-74 | `len` is 4 |
| RandomShoe.InfiniteShoe.Pop | src/shoe/randomshoe.rs:353-364 | the infinite shoe always pops a rank card: the value at `drawValue % 13`, the suit at `drawSuit % 4` |
| RandomShoe.InfiniteShoe.Len | src/shoe/randomshoe.rs:95-98 | `len` is always 52 |
| RandomShoe.InfiniteShoe.Count | src/shoe/randomshoe.rs:85-88 | `count` is always 4 |
| RandomShoe.InfiniteShoe.Remove | src/shoe/randomshoe.rs:322-334 | `remove(v)` always gives a card of value `v` |
| RandomShoe.InfiniteShoe.Insert | src/shoe/randomshoe.rs:335-338 | `insert` leaves the shoe as it is |
| RandomShoe.InfiniteIsFullDeck | src/shoe/randomshoe.rs:353-364 | at every moment the infinite shoe reports the counts and length of one full deck, and every card it hands out is one a deck holds |
| RandomShoe.DeckValuePick | src/shoe/randomshoe.rs:221-226 | a value is drawn by count: None iff the picker is empty; otherwise a value with a positive count, which drops by one |
| RandomShoe.DeckValueRemove | src/shoe/randomshoe.rs:230-235 | `remove(v)` gives `v` iff its count was positive, and then that count drops by one |
| RandomShoe.DeckValueInsert | src/shoe/randomshoe.rs:236-238 | `insert(v)` raises `v`'s count by one; `v` is listed again only when it is not listed already (the corrected insert), so a fair picker stays fair |
| RandomShoe.DeckSuitPick | src/shoe/randomshoe.rs:258-263 | a suit is drawn by count: None iff empty; otherwise a suit with a positive count, which drops by one |
| RandomShoe.DeckSuitInsert | src/shoe/randomshoe.rs:273-275 | `insert(s)` raises `s`'s count by one; `s` is listed again only when it is not listed already (the corrected insert), so a fair picker stays fair |
| RandomShoe.LinkedTotal | src/shoe/randomshoe.rs:316-321 | when the value counts are the table's row sums, the value picker's size is the shoe's length |
| RandomShoe.LinkedTake | src/shoe/randomshoe.rs:322-334 | taking one card from both the value and the suit picker keeps them linked |
| RandomShoe.LinkedPut | src/shoe/randomshoe.rs:335-338 | putting one card back into both keeps them linked |
| RandomShoe.GenericDirectShoe.constructor | src/shoe/randomshoe.rs:341-351 | `new_random_shoe` holds exactly one full deck |
| RandomShoe.GenericDirectShoe.Len | src/shoe/randomshoe.rs:316-318 | `len` is every card left |
| RandomShoe.GenericDirectShoe.Count | src/shoe/randomshoe.rs:319-321 | `count(v)` is the cards of value `v` left |
| RandomShoe.GenericDirectShoe.Pop | src/shoe/randomshoe.rs:298-315 | `pop` meets the shoe contract: one card the shoe held leaves it, or None exactly when it is empty |
| RandomShoe.GenericDirectShoe.Remove | src/shoe/randomshoe.rs:322-334 | `remove(v)` meets the contract: a card of value `v` leaves while one is left, otherwise None and nothing changes |
| RandomShoe.GenericDirectShoe.Insert | src/shoe/randomshoe.rs:335-338 | `insert(c)` adds exactly one copy of `c` |
| RandomShoe.AceTaken | src/shoe/shoe.rs:49-59 | while an ace is left, `remove(ACE)` takes an ace of a suit not yet taken and the ace count drops by one |
| RandomShoe.AcesGone | src/shoe/shoe.rs:60 | after four ace removals all four suits have been seen |
| RandomShoe.NoAceLeft | src/shoe/shoe.rs:61-66 | with no ace left, `remove(ACE)` gives None and changes nothing |
| RandomShoe.RemoveAces | src/shoe/shoe.rs:42-66 | from a full deck: four aces of four suits, then None; 48 cards left with four fours and every five present |
| RandomShoe.PopTaken | src/shoe/shoe.rs:94-104 | a popped card counts as a five exactly when it is one, and then its suit is new |
| RandomShoe.FivesGone | src/shoe/shoe.rs:109-112 | when the shoe is empty there were 48 pops and four fives of four suits |
| RandomShoe.PopAll | src/shoe/shoe.rs:84-112 | popping until empty yields 48 cards, including the four fives in four distinct suits, and leaves no five |
| RandomShoe.TestSingleDeck | src/shoe/shoe.rs:38-113 | `test_single_deck` passes on any shoe holding one full deck, whatever the draws |
| RandomShoe.TestRandom | src/shoe/randomshoe.rs:366-372 | `new_random_shoe` passes `test_single_deck` |
| EV.Payoff | src/action_calculator.rs:124-132 | a standing dealer's result is a whole bet: 1, −1 or 0 |
| EV.PayoffMeaning | src/action_calculator.rs:120-132 | win iff the dealer busts or scores lower, loss iff the dealer scores higher without busting, push iff the scores tie |
| EV.ValidCardsNonNegative | src/action_calculator.rs:136-147 | `number_of_valid_cards` is never negative and never exceeds the shoe's length |
| EV.CompletesBlackjack | src/action_calculator.rs:137-160 | an unsplit one-card dealer hand becomes a blackjack exactly when a ten-valued card joins an ace or an ace joins a ten-valued card |
| EV.ValidCardsCover | src/action_calculator.rs:136-160 | every draw that enters the sum is among the valid cards, so its odds have a positive denominator |
| EV.DealerEVSome | src/action_calculator.rs:118-178 | the dealer's play always has a value: the `None` paths cannot be taken |
| EV.DealerStands | src/action_calculator.rs:120-132 | a standing dealer's value is 1, −1 or 0, and 1 on a dealer bust |
| EV.BlackjackDrawIgnored | src/action_calculator.rs:160-163 | a draw that completes a dealer blackjack adds nothing to the sum |
| EV.BestIsMax | src/action_calculator.rs:37-61 | −1 on a bust; otherwise STAND has a value, the best value is at least STAND's and at least HIT's when a hit is allowed, and it is one of the two |
| EV.OtherActions | src/action_calculator.rs:65-115 | HIT has a value iff the score is below 21; DOUBLE and SPLIT give −1 when legal, SURRENDER 0.5, and each is None when illegal |
| EV.StatsOfDealt | src/hand.rs:58-65 | counters built from real cards are consistent: no more aces than cards, and a base between 1 per ace plus 2 per other card and 1 per ace plus 10 per other card |
| Calculator.Counts | src/action_calculator.rs:72-74 | the per-value counts the shoe reports sum to its length |
| Calculator.CountsTake | src/action_calculator.rs:152-157 | taking a card lowers exactly its value's count by one |
| Calculator.ExpectedValueBestAction | src/action_calculator.rs:37-61 | the result is `BestEV` of the shoe's counts and the hand; hand and shoe are restored |
| Calculator.ExpectedValue | src/action_calculator.rs:62-117 | the result is `ActionEV` for the action; hand and shoe are restored |
| Calculator.HitAll | src/action_calculator.rs:66-90 | the loop over `VALUES` sums, for every value still in the shoe, its odds times the best value after drawing it; hand and shoe are restored |
| Calculator.HitValue | src/action_calculator.rs:71-88 | one pass of that loop adds the `k`-th value's share and restores hand and shoe |
| Calculator.HitWith | src/action_calculator.rs:75-86 | one hit: the card goes from the shoe to the hand, the best value of the new state is computed, and both come back |
| Calculator.HitStep | src/action_calculator.rs:73 | a value the shoe lacks adds nothing to the hit sum |
| Calculator.HitTaken | src/action_calculator.rs:74-84 | a value the shoe holds adds its odds times the best value after drawing it |
| Calculator.Deal | src/action_calculator.rs:152-159 | `remove(v)` and `addCard` move one card of value `v` from the shoe to the hand |
| Calculator.Return | src/action_calculator.rs:172-173 | `removeCard` and `insert` move that card back, restoring hand and shoe exactly |
| Calculator.ExpectedWithDealer | src/action_calculator.rs:118-178 | the result is `DealerEV`: the payoff once the dealer stands, else the weighted sum over the dealer's draws; dealer hand and shoe are restored |
| Calculator.DealerDraws | src/action_calculator.rs:133-176 | the dealer's drawing loop computes `DealerPrefix` over all thirteen values |
| Calculator.DealerDraw | src/action_calculator.rs:148-175 | one pass of the dealer loop extends the prefix by the `k`-th value |
| Calculator.DealerWith | src/action_calculator.rs:150-174 | a draw the shoe holds goes to the dealer; a blackjack draw is skipped, otherwise its weighted value is added |
| Calculator.DealerGoesOn | src/action_calculator.rs:160-170 | a counted draw recurses and adds its odds among the valid cards times the value |
| Calculator.DealerStep | src/action_calculator.rs:149-163 | a value not counted leaves the dealer sum unchanged |
| Calculator.DealerTaken | src/action_calculator.rs:151-169 | a counted draw adds its odds among the valid cards times the dealer's value after it |
| Calculator.ValidCardsOf | src/action_calculator.rs:136-147 | the method computes `number_of_valid_cards` from the shoe's counts and the dealer hand |

## Left out

- Randomness (`rand::random`) is not modelled. Every draw is a number the
  caller passes in (`draw`, `drawValue`, `drawSuit`, or a function of the
  step for the shoe test). The infinite pickers take `draw % 13` and
  `draw % 4`, as in the source.
- `f64` arithmetic is replaced by `real`. The rounded reference values in
  the calculator's tests come from published tables and are not reproduced.
- Machine integer widths (`uint`, `u32`) are unbounded here. The only
  overflow the source handles, the `u64` to big-integer switch in
  `DynamicChangingU64`, is modelled explicitly (`Hasher.Dyn`). `len` of the
  memo store models the `as u32` cast.
- `BigUint` and `Bitv` are modelled as `nat` and `seq<bool>`. `to_bytes`
  becomes an explicit packing function.
- Some accessors the hashers call are not defined by the hand and rules
  files in this snapshot: the double and split counters, the doubling and
  split limits, action legality, and the dealer's soft-hit rule. They are
  fields of `HandHashers.PlayerHand` and `HandHashers.HashRules`, with the
  bounds that `HashRange::new` asserts as preconditions.
- `HandHasherTests.TestDeckHashOrder` works on the per-value counts directly.
  The deck-hash tests build `DirectActualShoe` with `initial_length` and
  `maximum_count_of_any_value` fields that this snapshot's shoe lacks, and
  its `remove` never takes a card. So the test as written cannot run
  against `src/shoe/directshoe.rs`. The model states what the test means.
- `initial_length` and `maximum_count_of_any_value` are not modelled. No
  shoe in this snapshot implements them, the tracker's pass-through
  versions included. The deck hasher takes the maximum count as an
  `Option` parameter instead.
- `Hand.BJHandImpl.RemoveCard` reports a missing card as `found == false`
  and changes nothing. The source's `fail!` panics only after it has already
  lowered the counters. The source's other `fail!` and `assert!` paths are
  proved unreachable or become preconditions:
  - "Count positive, but couldn't remove";
  - "Suit should never be empty";
  - "Should never return none";
  - the player-score `assert!`;
  - the out-of-bounds `INDEX_TO_SCORE` lookup on `JOKER`, which panics in
    the source: `Hand.ScoreForValue` and `Hand.BJHandImpl.AddCard` require a
    rank (`v.IsRank()`).
- `Picker.RandomItemPicker.Value` has no retry. The source calls `value()`
  again when the index found has count 0, and the model proves that
  `get_index` never returns such an index. The unused `IntCount.value`
  field, which always equals the position, is dropped.
- `GenericDirectShoe` is modelled with the deck pickers that
  `new_random_shoe` installs, not over arbitrary boxed pickers. The
  infinite shoe is a separate value datatype (`RandomShoe.InfiniteShoe`).
- RandomShoe.DeckValueInsert, RandomShoe.DeckSuitInsert and
  RandomShoe.GenericDirectShoe.Insert use the corrected picker insert
  (`Picker.RandomItemPicker.Insert`), not the one the source runs
  (`Picker.RandomItemPicker.InsertAsWritten`; see "## Findings"). The counts
  are the same either way. The pickers' index lists, and so which card a
  given draw picks after an insert, can differ from the source's.
- The tracker wraps a `GenericDirectShoe`, not any shoe.
- The calculator runs over `GenericDirectShoe`. Its recursion is proved
  against `BestEV`, `ActionEV` and `DealerEV` over the shoe's value counts.
- The early `None => return None` in the dealer's loop
  (`src/action_calculator.rs:167`) is proved unreachable: `EV.DealerEVSome`
  shows that the dealer's value always exists, so `Calculator.DealerDraws` and
  `Calculator.DealerGoesOn` close that branch with `assert false`. The model
  therefore says nothing about the source returning there without putting the
  drawn card back.
- `Calculator.ExpectedWithDealer` requires an unsplit dealer hand and a
  player score of at most 21, which is how the engine always calls it.
- The calculator computes the odds only in the branch that uses them. The
  source divides at line 151, before the blackjack check at line 160, and
  one-card dealer hands can reach a zero denominator there. The model
  proves that every draw that is counted has a positive denominator.
- `expected_value_best_action` tries only HIT besides STAND, because its
  action list has DOUBLE, SPLIT and SURRENDER commented out. The model
  follows the code, so `EV.BestEV` is the maximum of STAND and HIT only.
- `reserve_exact` in `cards_in_deck` affects capacity only and is not
  modelled.
- Not part of this model:
  - `src/time.rs`;
  - all `println!` output;
  - the old top-level copies of the shoe and card files outside the
    module tree;
  - `src/shoe/builder.rs` and `src/strategy_generator.rs`.
- The `Show` implementations are not modelled, except `fmt` for shoes.

## Findings

| source | as written | input that shows it | evidently intended | confidence | as-written member | corrected member |
|---|---|---|---|---|---|---|
| src/shoe/randomshoe.rs:194-200 | `insert` lists an index again whenever its count was 0, even if the lazily pruned list still holds it | `new(1,2)`, `remove(1)`, `insert(1)`, `remove(0)`, `get_index(0)`, `insert(0)` leaves the list [1, 1, 0] with counts [1, 1], so `get_index(0)` and `get_index(1)` both give 1 and index 0 is never drawn | each index listed at most once, so each index is drawn with odds equal to its count | not executed | Picker.RandomItemPicker.InsertAsWritten, Picker.AsWrittenSkew | Picker.RandomItemPicker.Insert, Picker.CorrectedTrace, Picker.FairDraw, RandomShoe.DeckValueInsert |
