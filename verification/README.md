# Verified model of the authenticated PIR protocols

This project models the three retrieval protocols of the vpir-code repository and proves what their
clients accept. Every loop over a buffer is a Dafny method with a loop, every object whose fields
change is a class, and each is proved against a function about which the protocol theorems are then
proved. AES, BLAKE3, BLAKE2b and FNV are function parameters about which nothing is assumed; all
randomness (seeds, MAC keys, secrets, error rows, scalars, share bytes, redrawn field words) is an
input, so the theorems hold for every choice of it.

**Predicate queries over function secret sharing.** `Words`, `ModArith`, `Endian`, `Field` hold
32-bit words, wrapping arithmetic and the field of 2^31 - 1 elements. `FssTree` relates the client's
walk over the key tree to the servers' walks; `FssPoint` says what the two shares add up to;
`FssScheme` is the running code. `Query` maps records to bit strings, `PredicateServer` sums shares
over a database, `PredicateTally` proves what the two sums stand for, `PredicateClient` reconstructs,
`PredicateApir` is the protocol end to end and `PredicateMac` its integrity, for which `Mersenne`
proves that 2^31 - 1 is prime and `Counting` counts and bounds sets of keys. `Norm` reduces into the field; on
values below 2^31 - 1 it changes nothing.

**LWE retrieval of a bit.** `MatrixAlgebra` and `Matrices` hold products modulo 2^32 and the loop
nests that compute them, `LweDecode` the interval decoder, `Lwe` digest, query, answer and
reconstruction, `Ecc` and `Amplify` the repetition, `AmplifyIntegrity` how many scalar vectors fixed
offsets can fool, `Chunks` and `MatrixCodec` the wire format.

**Merkle-authenticated XOR retrieval of a block.** `MerkleSpec` holds the hash tree, completeness and
binding, `Merkle` the tree object, proofs and their encoding, `XorAlgebra` the linearity of selection,
`PointServer` and `PointClient` the two sides, `MerkleDatabase` the record layout, `PointApir` the
protocol end to end. Binding is a computed reduction: `Extract` returns either nothing or concrete
evidence against the hash function (two different inputs with one output, or a preimage of the
all-zero padding node). The two-server library dpf-go is a pair of function parameters; what the
protocol needs of it is stated as `PointApir.SharesPoint`.

## What does not hold, and exactly when it does

- The point function is right on all inputs of the target's length if and only if that length is at
  most 256 bits, because evaluation reads bit 256 as zero (`FssPoint.PointFunctionExact`); hence, for
  every kind of query, hits and results are right for every database if and only if the client's input
  has at most 256 bits (`PredicateApir.CountExact`, `PredicateApir.AnswerExact`): 32 selected bytes for
  an identifier, 28 behind the year of a conjunction. `PredicateApir.Miscounted` computes the record.
- A server's replaced word changes the client's sum by a fixed error for every honest share if and only
  if it is below 2^31 + 2, because the client adds in 32 bits before it reduces
  (`PredicateMac.OverflowExact`). Up to there at most one vector of MAC keys lets a wrong count or
  average through, above at most 2^m when the client reads m words
  (`PredicateMac.ReplacedCountForgeries`, `PredicateMac.ReplacedAverageForgeries`).
- Reconstruction chooses its branch by the number of words in server 0's answer alone, whatever was asked.
  Let n be the number of words of a count; an average has 2n. Where the count differs from the average, the
  bound for averages holds for all answers of server 0 with m words if and only if m is 2n or below n
  (`PredicateMac.AverageGuardExact`). With its honest answer cut after the count half the client returns
  the count under every vector of MAC keys (`PredicateMac.TruncatedAverage`); from n words on every other
  length lets some answer through under all of them (`PredicateMac.EveryKeyFooled`). Exchanging the two
  answers never changes the decision if and only if both or neither have 2n words
  (`PredicateMac.SidesSwapExact`).
- The target values behind the last whole group of four are not masked: both keys show them up to sign
  (`FssPoint.ValuesInClear`, `FssPoint.KeyShows`), with five words the last MAC key. A server that chooses
  its words by what its key shows fools the client under at most 2^m key vectors for each value shown
  (`PredicateMac.AdaptiveCountForgeries`, `PredicateMac.AdaptiveAverageForgeries`).
- The shares are right whatever is redrawn if and only if no converted word equals 2^31 - 1, because
  every party redraws on its own (`FssPoint.ResamplingExact`).
- LWE decoding is right for all noise below B if and only if the scalar t, which the client draws
  without looking, lies between 2B - 1 and 2^32 - 2B + 1 (`LweDecode.DecodingExact`).
- `Decode` of the repetition code keeps its first word as the only candidate, although its comment names
  the Boyer-Moore algorithm. With at most t errors among 2t + 1 words it never returns a wrong word, and
  it returns the right one exactly when the first position is intact; it corrects every pattern of at
  most t errors if and only if t is 0 (`Ecc.ErrorsCorrected`, `Ecc.CorrectionExact`).
- The proof generated for a stored block verifies if and only if the last block with the same lookup key
  is equal to it, unless the hash breaks (`Merkle.GeneratedVerifies`).
- Proof generation for a stored block stops on an index out of range if and only if the keys number at
  most half the leaf positions (`Merkle.GenerationExact`, `Merkle.KeysSpanExact`); three equal blocks do
  (`Merkle.EqualBlocksHalt`).
- Data and a proof that verify are a stored block with its own proof if and only if the proof has
  depth-many hashes, unless the hash breaks (`MerkleSpec.Binding`). Leaves and inner nodes are hashed
  alike and the number of hashes is not compared with the tree, so in every tree of at least two blocks
  the children of the root pass as data with an empty proof (`MerkleSpec.RootAsLeaf`,
  `MerkleDatabase.RootRecordOpens`). A client can also take more hashes than the tree is deep, out of the
  dropped byte and the zeros that stand behind the record in its buffer: where the only block is 60 bytes
  that read as the pair of another leaf and such a hash, data that is not stored is accepted without
  breaking the hash (`MerkleDatabase.SpareHashOpens`). A shorter proof verifies exactly for an inner node's
  input, which needs 60 bytes of data, and a longer one exactly when its surplus hashes end in a stored
  block's leaf input, which needs a stored block of 60 bytes, unless the hash breaks
  (`MerkleSpec.ShortProofExact`, `MerkleSpec.LongProofExact`, `MerkleDatabase.AcceptedIsStored`). A caller
  who knows the proof length can compare the number of hashes with (ProofLen - 8) / 32.
- Data the client accepts with a full-length proof is the block it asked for if and only if the block at
  the proof's index is equal to it, unless the hash breaks; with distinct blocks, if and only if the
  proof's index is the queried one (`MerkleDatabase.AskedBlockExact`). The client does not compare the
  two, and the difference of two records XORed into one server's answer makes it accept the other block
  (`PointApir.OtherBlockAccepted`).
- A proof is encoded without loss if and only if its hashes end at an offset of 32 bits, a matrix if and
  only if its dimensions fit 32 bits, a list of equally shaped matrices if and only if the size of one
  encoding and the count do as well (`Merkle.EncodingExact`, `MatrixCodec.MatrixRoundTrip`,
  `MatrixCodec.ListRoundTripExact`).

## Model

| member | source | states |
|---|---|---|
| `Field.ToElement` | lib/field/field.go:31-47 | reads the four bytes with the top bit cleared in place and gives their big-endian value, or the redrawn word when that value is the modulus; no other byte changes |
| `Field.ElementValue` | lib/field/field.go:31-47 | in numbers: the big-endian value of the four bytes modulo 2^31, or the redrawn word when that is the modulus |
| `Field.BytesToElements` | lib/field/field.go:93-101 | fills the output with one element per four bytes of the input as it was, although the input is overwritten on the way; zero bytes stay zero |
| `FssTree.LoseSide` | lib/fss/client.go:100-110 | on the side the target loses, two parties with opposite control bits end with the same seed and the same bit |
| `FssTree.StreamAt` | lib/fss/common.go:59-66 | byte j of PRF block i is byte j of cipher i's output XORed with byte j of the input |
| `FssTree.Step` | lib/fss/server.go:42-74 | one level keeps the two-party invariant: still on the path and equal to the client's states, or at one common node |
| `FssTree.LevelInvariant` | lib/fss/client.go:73-123 | for every target and every input of its length: the client's control bits differ; while the input is the target each server stands where the client's walk stands; once it has left the path both servers stand at one node |
| `FssTree.CorrectionWordsPrefix` | lib/fss/client.go:102-110 | the correction words of a prefix are the prefix of the correction words, so the invariant speaks about every inner level |
| `FssPoint.FinalWordExact` | lib/fss/client.go:136-149 | with canonical inputs no 32-bit operation of the final correction word wraps, and the word is b - m0 + m1 in the field, negated when party 1's bit is set |
| `FssPoint.ConvertedFrom` | lib/fss/common.go:68-72 | word i of a converted seed comes from the four bytes at 4 (i mod 4) of PRF block i / 4 |
| `FssPoint.ShareExact` | lib/fss/server.go:78-85 | no 32-bit operation of an output share wraps; server 0's share is canonical, server 1's lies in 1..ModP |
| `FssPoint.SumAt` | lib/fss/server.go:77-85 | what the shares of one word add up to even when conversions were redrawn: b or zero, off by the conversion mismatch |
| `FssPoint.PointFunction` | lib/fss/client.go:38-40 | for every cipher, seeds, target, values and input of the target's length, the two outputs add to the values if the input as read is the target and to zero otherwise |
| `FssPoint.PointShares` | lib/fss/server.go:78-85 | the same for the raw shares, whose plain sum does not wrap |
| `FssPoint.ResamplingExact` | lib/field/field.go:38-45 | the sum is right for all redrawn words if and only if no word that matters equals the modulus |
| `FssPoint.BadCoins` | lib/field/field.go:38-45 | computes redrawn words that make the sum wrong whenever some word is redrawn |
| `FssPoint.PointFunctionExact` | lib/fss/server.go:44-49 | for a non-zero value the shares form the point function on all inputs of the target's length if and only if the length is at most 256 |
| `FssPoint.ValuesInClear` | lib/fss/common.go:68-72 | nothing masks the target values behind the last whole group of four: the final correction holds them up to sign |
| `FssPoint.KeyShows` | lib/fss/client.go:136-149 | a key's final words behind the last whole group of four are those target values, negated or not as one bit says |
| `FssScheme.Fss.Prf` | lib/fss/common.go:59-66 | writes the requested number of Matyas-Meyer-Oseas blocks to the front of the buffer and leaves the rest |
| `FssScheme.Fss.ConvertBlock` | lib/fss/common.go:68-72 | converts a seed into field words, four to a block; the remaining words come from bytes that stay zero across all calls |
| `FssScheme.Fss.WalkTree` | lib/fss/client.go:73-123 | the level loop over two running seeds and bits emits the correction words and ends in the walk's states |
| `FssScheme.RootExact` | lib/fss/client.go:46-54 | the parties' seeds are their own random bytes, their control bits the parity of one more byte and its opposite |
| `FssScheme.Fss.GenerateTreePF` | lib/fss/client.go:40-152 | both keys carry the walk's correction words and the common final correction, each its own root; shared buffers stay valid for the next call |
| `FssScheme.Fss.Correct` | lib/fss/server.go:53-64 | the running counter applies seed and bit corrections to both halves of the expansion in place |
| `FssScheme.Fss.FollowPath` | lib/fss/server.go:42-74 | the evaluation loop ends at the node of the input with bit 256 cleared |
| `FssScheme.Fss.EvaluatePF` | lib/fss/server.go:34-86 | writes the server's share of the point function into the result |
| `FssScheme.MakeFinalWords` | lib/fss/client.go:133-149 | the final correction loop computes the specified words from both converted seeds |
| `FssScheme.MakeCorrectionWord` | lib/fss/client.go:102-110 | the loop and the two remainders modulo 2 give seed and bit corrections of one level |
| `FssScheme.Fix` | lib/fss/server.go:62 | XOR with the byte product of control bit and correction byte applies the correction exactly when the bit is set |
| `FssScheme.WriteShares` | lib/fss/server.go:78-85 | the output loop computes each server's shares, a multiplication by the control bit included |
| `Query.ByteToBits` | lib/utils/encoding.go:27-41 | the shifting loop gives the bits of all bytes, most significant first |
| `Query.BitsAreDigits` | lib/utils/encoding.go:27-41 | bit p of a byte string is the bit of weight 2^(7 - p mod 8) of byte p / 8 |
| `Query.BitsInjective` | lib/utils/encoding.go:27-41 | two byte strings have the same bits if and only if they are equal |
| `Query.YearIdInjective` | lib/query/query.go:201-206 | two years have the same identifier if and only if they differ by a multiple of 2^32 |
| `Query.SelectedAlike` | lib/query/query.go:169-187 | two identifiers give equal bytes to compare if and only if both are long enough and agree on the first fromStart bytes, or else on the last fromEnd bytes, or with both zero on the first 16 hash bytes |
| `Query.InputDefined` | lib/query/query.go:169-187 | the client has an input if and only if the identifier, where the query compares one, has the bytes to select |
| `Query.ItemDefined` | lib/server/fss.go:45-134 | a server skips exactly the records whose compared identifier is too short and, for an average, those of a year to come; an average weighs the others by the years since |
| `Query.InputExact` | lib/query/query.go:169-206 | a record's input has the client's length, and equals the client's input if and only if the record matches byte by byte: prefix, suffix or hash of the identifier, algorithm, time or year, for every query kind |
| `PredicateServer.AddInto` | lib/server/fss.go:99-101 | adds a share vector into the running sums in place, reduced word by word |
| `PredicateServer.AddScaledInto` | lib/server/fss.go:125-133 | adds the shares times the year difference, through a 64-bit product |
| `PredicateServer.Server.Answer` | lib/server/fss.go:42-138 | the answer is the tally of shares over all records that contribute, count first and weighted sum behind it for an average, nothing for skipped records |
| `PredicateTally.AddBoth` | lib/server/fss.go:55-57 | adding one share on each side adds what the shares stand for; accumulators stay canonical and nothing wraps |
| `PredicateTally.ScaleBoth` | lib/server/fss.go:129-132 | scaling both shares scales what they stand for although server 1's share is not canonical |
| `PredicateTally.PairedSums` | lib/server/fss.go:48-58 | over any number of records word j of the two totals stands for hits times b, of the weighted totals for the hits' years times b |
| `PredicateTally.TallySums` | lib/server/fss.go:109-134 | the same for the two honest servers' totals over any database |
| `PredicateClient.Client.Query` | lib/client/fss.go:47-72 | MAC key i is the i-th element the random source gives, the target values are 1 followed by the keys, and the two keys generated for them are returned |
| `PredicateClient.Client.Reconstruct` | lib/client/fss.go:83-135 | for answers of any lengths: the branch is chosen by the first one's length; rejection on the first disagreeing tag, a stop on the first word missing, division by a zero count told apart |
| `PredicateClient.DecideExact` | lib/client/fss.go:83-135 | a value needs answers as long as the chosen branch reads; on those, rejection on any disagreeing tag and otherwise the count or the quotient |
| `PredicateClient.DecideShort` | lib/client/fss.go:83-135 | on shorter answers no value: rejection on a disagreeing tag before the first missing word, a stop on that word otherwise |
| `PredicateApir.CountAccepted` | lib/client/fss.go:116-132 | honest count answers pass every tag check and give the number of hits in the field |
| `PredicateApir.AverageAccepted` | lib/client/fss.go:85-114 | honest average answers pass both tag checks and give the quotient of the hits' years by their number; only a zero count fails |
| `PredicateApir.HitsAreMatches` | lib/server/fss.go:85-103 | for inputs of at most 256 bits the hits and their years are exactly those of the records the query asks for |
| `PredicateApir.CountIsCardinality` | lib/server/fss.go:42-107 | the match count is the number of positions at which a matching record stands |
| `PredicateApir.CountExact` | lib/fss/server.go:44-49 | for every query kind, the hits are the matching records of every database if and only if the input has at most 256 bits |
| `PredicateApir.AnswerExact` | lib/fss/server.go:44-49 | the result of the run is the count or average over the records for every database if and only if the input has at most 256 bits |
| `PredicateApir.Miscounted` | lib/fss/server.go:44-49 | for every query kind with a longer input, computes a record on which servers and query disagree |
| `PredicateApir.AnsweredIsWanted` | lib/query/query.go:169-206 | the answer is the count or the average defined on the records alone |
| `PredicateApir.CountIsPlain` | lib/client/fss.go:116-132 | a count query returns the plain number of matching records if and only if it is below the modulus |
| `PredicateApir.WantedPlain` | lib/client/fss.go:114 | below the modulus a count query is answered by the plain number of matches, an average by years by number rounded down, and the average of no record divides by zero |
| `PredicateApir.Exchange` | key_test.go:251-258 | query and both honest answers: the client's keys are drawn from its source, each answer is the session's count or average over all records |
| `PredicateApir.AverageIsFloor` | lib/client/fss.go:114 | with a match and sums below the modulus, an average query returns the floor of years by number of the matching records |
| `PredicateApir.Retrieve` | key_test.go:242-268 | query, two honest answers and reconstruction as one run: the client accepts and returns the count or average of the records that match the wanted one, below the modulus the plain number or quotient |
| `PredicateApir.SetUpAndRetrieve` | key_test.go:242-268 | the same from scratch: client and servers are set up over any records and run once |
| `PredicateMac.KeyPinned` | lib/client/fss.go:123-130 | a non-zero data error and its tag error are compatible with one MAC key only |
| `PredicateMac.CountIntegrity` | lib/client/fss.go:116-132 | a fixed additive error on the reconstructed sums makes the client accept a wrong count under at most one vector of MAC keys |
| `PredicateMac.CountForgeries` | lib/client/fss.go:116-132 | any set of key vectors that let one fixed error on the sums through has at most one element |
| `PredicateMac.AverageIntegrity` | lib/client/fss.go:85-114 | the same when the client decides by the average branch, with errors on the sums of both halves |
| `PredicateMac.HonestRun` | lib/server/fss.go:42-138 | the answers of a run over any database are canonical and carry hits and years, from either server's side, as the integrity results need |
| `PredicateMac.OverflowExact` | lib/client/fss.go:118 | no honest share makes the 32-bit sum with a replaced word overflow if and only if the word is below 2^31 + 2 |
| `PredicateMac.ReplacedShifted` | lib/client/fss.go:91-108 | honest answers with one side replaced shift the sums by the distance of the words, less 2 where the 32-bit sum overflows |
| `PredicateMac.ReplacedCountForgeries` | lib/client/fss.go:116-132 | either server may replace its n words of a count by any answer of any length: the client accepts a wrong count under at most 2^n key vectors, under at most one when the replaced words are below 2^31 + 2 |
| `PredicateMac.ReplacedAverageForgeries` | lib/client/fss.go:85-114 | the same for an average, with the words of both halves: server 1's answer may have any length, server 0's 2n words or fewer than n |
| `PredicateMac.DrawsCount` | lib/client/fss.go:59-63 | a client of n words can draw exactly the vectors of n - 1 field elements, each from some source: MOD_P^(n - 1) of them |
| `PredicateMac.RetrieveReplaced` | lib/client/fss.go:83-135 | a whole run in which one server sends another answer: the client decides with the keys it drew, and accepts a wrong count or average exactly when the replacement is a forgery under those keys |
| `PredicateMac.DrawnCountForgeries` | lib/client/fss.go:59-63 | at most 2^n vectors of draws let some run with a replaced count end in a wrong count, at most one when the replaced words are below 2^31 + 2 |
| `PredicateMac.DrawnAverageForgeries` | lib/client/fss.go:59-63 | the same for averages with 2n words, under the guard of the average branch |
| `PredicateMac.SidesSwap` | lib/client/fss.go:83-135 | exchanging the two answers changes nothing if both or neither have 2n words |
| `PredicateMac.SidesSwapExact` | lib/client/fss.go:85 | on all answers of two lengths from n on, only then |
| `PredicateMac.TruncatedAverage` | lib/client/fss.go:85 | server 0's honest answer to an average query, cut after the count half, makes the client return the count under every vector of MAC keys, for every database |
| `PredicateMac.EveryKeyFooled` | lib/client/fss.go:85 | for every key vector there are honest answers that carry hits and years for which a zero answer of n or more, but not 2n, words is accepted as a wrong average |
| `PredicateMac.AverageGuardExact` | lib/client/fss.go:85 | where count and average differ, the bound on key vectors holds for all forgeries with m words from server 0 if and only if m is 2n or below n |
| `PredicateMac.AdaptiveCountForgeries` | lib/client/fss.go:116-132 | a server whose words are any functions of the words its key shows fools a count under at most 2^n key vectors for each value shown, so under at most P^e 2^n in all, e being the number of words shown |
| `PredicateMac.AdaptiveAverageForgeries` | lib/client/fss.go:85-114 | the same for an average, when server 0's answer has 2n words or fewer than n |
| `Mersenne.MersennePrime` | lib/field/field.go:13 | the modulus is prime |
| `MatrixAlgebra.ProductAssociative` | lib/database/lwe.go:18-25 | for all dimensions s (A D) and (s A) D are the same matrix of 32-bit words |
| `Matrices.MaskedIsProduct` | lib/matrix/matrix.c:19 | on a 0/1 byte, and with the negated byte is multiplication |
| `Matrices.Multiply` | lib/matrix/matrix.c:3-12 | the i-k-j loops over flat arrays add the matrix product modulo 2^32 into the output |
| `Matrices.BinaryMultiply` | lib/matrix/matrix.c:14-23 | the masked loops add the same product when the right operand is 0/1 |
| `Matrices.Mul` | lib/matrix/matrix.go:173-184 | a new matrix holding the product |
| `Matrices.BinaryMul` | lib/matrix/matrix.go:150-171 | a new matrix holding the product with a bit matrix |
| `Matrices.Matrix.Add` | lib/matrix/matrix.go:186-194 | adds word by word in place, wrapping, also when the operand is the matrix itself |
| `Matrices.Matrix.Sub` | lib/matrix/matrix.go:196-204 | subtracts word by word in place, wrapping, also when the operand is the matrix itself |
| `Matrices.Matrix.Set` | lib/matrix/matrix.go:130-132 | changes one entry of the row-major data and no other |
| `LweDecode.InRangeExact` | lib/client/lwe.go:97-99 | the unsigned test accepts a word if and only if it is the word of some number of magnitude below B |
| `LweDecode.DecodingExact` | lib/client/lwe.go:79-88 | that holds for all noise and both bits if and only if 2B - 1 <= t <= 2^32 - 2B + 1 |
| `LweDecode.DecodeWordExact` | lib/client/lwe.go:79-88 | a word is read as zero if and only if it is the word of noise below B, as one if and only if it is not but noise plus the scalar explains it, and rejected if and only if neither does |
| `LweDecode.StrayExact` | lib/client/lwe.go:79-88 | an offset on an honest word is rejected for all noise below B if and only if the offset, and the offset moved by the scalar towards the other bit, lie between 2B - 1 and 2^32 - 2B + 1 modulo 2^32 |
| `LweDecode.FlipBound` | scripts/integrity_amplification.py:15 | at most 2B - 1 of the 2^32 scalars let a fixed offset on a fixed honest word be accepted as the other bit |
| `Lwe.CreateRandomBinary` | lib/database/lwe.go:32-46 | the database holds one bit of the random bytes an entry, so it is a bit matrix |
| `Lwe.Digest` | lib/database/lwe.go:18-25 | the digest is A times the database |
| `Lwe.Server.Answer` | lib/server/lwe.go:27-29 | the answer is the query times the database |
| `Lwe.QueryWords` | lib/client/lwe.go:51-63 | every word of the query is the product's plus the error plus the scalar at position i alone, modulo 2^32 |
| `Lwe.NoiseIsDot` | lib/client/lwe.go:54 | the noise of a column is the inner product of the error row and that column |
| `Lwe.SmallErrorsQuiet` | lib/client/lwe.go:54 | errors whose magnitudes add up to less than B keep the noise of every column below B |
| `Lwe.AnswerSum` | lib/client/lwe.go:51-63 | a column of the answer is the query's own product, the noise of that column and t times the wanted entry |
| `Lwe.HonestWord` | lib/client/lwe.go:74-77 | subtracting secret times digest leaves noise plus t times row i, in every column |
| `Lwe.HonestRow` | lib/client/lwe.go:74-91 | an honest answer decodes in every column and gives entry (i, j), for every bit matrix, secret, A, error row below the bound and separating t |
| `Lwe.DecodeRowExact` | lib/client/lwe.go:79-91 | a row gives a bit if and only if noise below B, with or without the scalar, explains every column, and the bit is column j's |
| `Lwe.Client.Query` | lib/client/lwe.go:39-66 | sets the state and returns secret times A plus error plus t at position i |
| `Lwe.Client.Reconstruct` | lib/client/lwe.go:74-91 | overwrites the answer by the differences; returns a bit if and only if every column is noise below B with or without the scalar, and then column j's bit |
| `Lwe.RetrieveBit` | lwe_test.go:26-42 | query, answer and reconstruction as one run return the database bit |
| `Ecc.RepetitionCode.Encode` | lib/ecc/ecc.go:14-21 | 2t + 1 copies of the word |
| `Ecc.RepetitionCode.Decode` | lib/ecc/ecc.go:24-47 | returns the first word when it has a strict majority and fails otherwise |
| `Ecc.DecodedExact` | lib/ecc/ecc.go:24-47 | a word is decoded if and only if it stands first and at more than half of all positions |
| `Ecc.MajorityDecoded` | lib/ecc/ecc.go:24-47 | a word with a strict majority is returned exactly when it stands first |
| `Ecc.ErrorsCorrected` | lib/ecc/ecc.go:24-47 | with at most t errors no wrong word is returned; the right one is returned exactly when position 0 is intact |
| `Ecc.CorrectionExact` | lib/ecc/ecc.go:23-33 | all patterns of at most t errors are corrected if and only if t is zero |
| `Ecc.FirstWordMatters` | lib/ecc/ecc.go:25-33 | one error in three words that is not corrected |
| `Amplify.CombineSound` | lib/client/amplify.go:48-61 | with at most t wrong runs the other bit is never returned; the right one exactly when no run rejects and the first run is right |
| `Amplify.CombineExact` | lib/client/amplify.go:48-61 | a value is returned if and only if no run rejects, the first run gives it and fewer than half of the runs do not |
| `Amplify.Client.Query` | lib/client/amplify.go:32-38 | every base client asks for the same entry with its own randomness and keeps its own state |
| `Amplify.Client.Reconstruct` | lib/client/amplify.go:48-61 | combines the base clients' verdicts on their own answers, stopping at the first rejection |
| `Amplify.Answer` | lib/server/amplify.go:22-29 | one product a query, in separate buffers |
| `Amplify.RetrieveAmplified` | amplify_test.go:25-45 | an amplified run over honest answers with quiet noise returns the database bit |
| `Amplify.BuildAndRetrieve` | amplify_test.go:25-45 | from the random bytes on: database, digest, clients and one amplified retrieval return the bit of the bytes the database was made from |
| `AmplifyIntegrity.OffsetAnswer` | lib/client/lwe.go:74-77 | what a client decodes when offsets are added to the honest answer: noise plus t times the row plus the offsets |
| `AmplifyIntegrity.VerdictRejects` | lib/client/lwe.go:79-88 | a run with offsets rejects if and only if some column, asked for or not, is left unexplained |
| `AmplifyIntegrity.OffsetRejects` | lib/client/lwe.go:79-88 | with quiet noise one column on which the offset, alone and moved by the scalar, separates makes the run reject |
| `AmplifyIntegrity.RetrieveWithOffsets` | lib/client/amplify.go:48-61 | an amplified run with any fixed offsets added in place to every honest answer, for any noise and scalars, returns what the code makes of the runs' verdicts, the other bit exactly when the scalars are forged, and rejects if any column of any repetition is left unexplained |
| `AmplifyIntegrity.ForgedChoices` | lib/client/amplify.go:48-61 | with separating scalars a forged result flips exactly the disturbed repetitions, more than half, each by one of at most 2B - 1 scalars |
| `AmplifyIntegrity.AmplifiedForgeries` | scripts/integrity_amplification.py:15-22 | of the vectors of 2t + 1 separating scalars at most (2B - 1)^(t + 1) S^t let fixed offsets turn the result into the other bit, S = 2^32 - 4B + 3 being the number of separating scalars |
| `AmplifyIntegrity.AnyScalarForgeries` | lib/client/amplify.go:48-61 | of all vectors of scalars, drawn without looking, at most 2^(2t + 1) (2B - 1)^(t + 1) 2^(32 t) |
| `MatrixCodec.WordsRoundTrip` | lib/utils/encoding.go:8-25 | words survive the byte encoding |
| `MatrixCodec.Uint32SliceToByteSlice` | lib/utils/encoding.go:8-16 | the loop writes every word big-endian, one after the other |
| `MatrixCodec.ByteSliceToUint32Slice` | lib/utils/encoding.go:18-25 | the loop reads the words back and ignores up to three trailing bytes |
| `MatrixCodec.MatrixRoundTrip` | lib/matrix/matrix.go:39-62 | decoding an encoded matrix gives it back if and only if its dimensions fit 32 bits |
| `MatrixCodec.EncodeLayout` | lib/matrix/matrix.go:39-50 | rows, columns and words stand in this order, four bytes each, most significant byte first |
| `MatrixCodec.ListRoundTrip` | lib/matrix/matrix.go:64-100 | a non-empty list of equally shaped matrices comes back unchanged if dimensions, encoding size and count fit 32 bits |
| `MatrixCodec.ListRoundTripExact` | lib/matrix/matrix.go:64-100 | and only then: an encoding of 2^32 bytes or a count of 2^32 never comes back |
| `MatrixCodec.MatricesToBytes` | lib/matrix/matrix.go:64-84 | the buffer holds the length of one encoding and all encodings in order |
| `MatrixCodec.BytesToMatrices` | lib/matrix/matrix.go:86-100 | the count comes from the total length and every slice decodes into its matrix |
| `MatrixCodec.ListSlices` | lib/matrix/matrix.go:86-100 | any bytes give as many matrices as whole slices of the announced size fit, modulo 2^32, each decoded from its own slice |
| `MatrixCodec.SendMatrices` | lib/matrix/matrix.go:64-100 | encoding and decoding as one run give new matrices with the same contents |
| `MerkleSpec.CeilLog2Exact` | lib/merkle/merkletree.go:93 | the depth is the least exponent whose power of two reaches n |
| `MerkleSpec.IndicesFit` | lib/merkle/merkletree.go:66 | with at most 2^31 leaf positions every 32-bit node index is exact |
| `MerkleSpec.NodeShape` | lib/merkle/merkletree.go:101-122 | a leaf hashes its block followed by its index, padding is 32 zero bytes, an inner node hashes its left and its right child |
| `MerkleSpec.SiblingCount` | lib/merkle/merkletree.go:61-70 | a node at depth d has exactly d siblings on its way up |
| `MerkleSpec.SiblingsReachRoot` | lib/merkle/proof.go:69-76 | any node's hash, index and siblings recompute the root |
| `MerkleSpec.ProofsVerify` | lib/merkle/proof.go:63-78 | for any number of blocks, every block's proof has ceil(log2 n) siblings and recomputes the root |
| `MerkleSpec.FoldPeriod` | lib/merkle/proof.go:67-76 | verification reads only as many low index bits as there are hashes |
| `MerkleSpec.PathBinds` | lib/merkle/proof.go:69-76 | a path that reaches the root from node k is the tree's own path and hash, or it contains two inputs with one hash |
| `MerkleSpec.BreachIsReal` | lib/merkle/proof.go:63-78 | extracted evidence is two different inputs with one hash, or an input whose hash is 32 zero bytes |
| `MerkleSpec.Binding` | lib/merkle/proof.go:55-78 | unless the extracted evidence breaks the hash, data and proof that verify are a stored block with its own index and proof if and only if the proof has depth-many hashes |
| `MerkleSpec.ShortProofExact` | lib/merkle/proof.go:63-78 | a shorter proof verifies if and only if data and index are an inner node's input and the hashes its siblings, unless the hash breaks |
| `MerkleSpec.RootAsLeaf` | lib/merkle/proof.go:63-78 | in every tree of at least two blocks the root's children verify as 60 bytes of data with an empty proof that is no block's own |
| `MerkleSpec.LongProofExact` | lib/merkle/proof.go:63-78 | a longer proof verifies if and only if its surplus hashes end in a stored block's leaf input and the rest are that leaf's siblings, unless the hash breaks; that block is 60 bytes long |
| `MerkleSpec.SurplusHash` | lib/merkle/proof.go:63-78 | in a tree of one 60-byte block that reads as the pair of another leaf and a hash, the other data verifies with that hash, nothing breaking the hash function |
| `MerkleSpec.LongProofBreaks` | lib/merkle/proof.go:63-78 | a longer proof verifies only by breaking the hash, if no stored block is 60 bytes long |
| `MerkleSpec.ProofSpeaksForItsBlock` | lib/merkle/proof.go:49-61 | the stored proof of a block verifies that block, and other data only by breaking the hash |
| `Merkle.IndexMapLast` | lib/merkle/merkletree.go:101-109 | a key leads to the last block that has it, every block's key is present, and there are at most as many keys as blocks |
| `Merkle.DistinctKeysProvable` | lib/merkle/merkletree.go:61 | distinct keys are enough for all proofs to be generated and to verify |
| `Merkle.GeneratedVerifies` | lib/merkle/merkletree.go:54-71 | the proof generated for a stored block has depth-many siblings and verifies if and only if the last block with its key is equal to it, unless the hash breaks |
| `Merkle.GeneratedExact` | lib/merkle/merkletree.go:54-71 | for any data: no proof if and only if no block has its key, otherwise the proof of the last block that has it |
| `Merkle.ProvableVerifies` | lib/merkle/merkletree.go:54-71 | without different blocks under one key every stored block's generated proof verifies |
| `Merkle.GenerationExact` | lib/merkle/merkletree.go:54-71 | a request for a stored block never fails: it stops if and only if the keys do not span the tree and otherwise returns the block's proof |
| `Merkle.KeysSpanExact` | lib/merkle/merkletree.go:61 | the keys span the tree if and only if there are more of them than half its leaf positions |
| `Merkle.EqualBlocksHalt` | lib/database/pgp.go:108-116 | three equal blocks have one key in a tree of depth two, and generation stops |
| `Merkle.MerkleTree.NewUsing` | lib/merkle/merkletree.go:88-126 | fails exactly on no data; otherwise all leaves, padding nodes, inner nodes and the index map are those of the tree over the data |
| `Merkle.MerkleTree.GenerateProof` | lib/merkle/merkletree.go:54-71 | fails exactly on unknown keys and stops exactly when the climb runs past the array; otherwise fills it with the siblings of the found leaf, no slot more or less |
| `Merkle.MerkleTree.EncodedProofLength` | lib/merkle/merkletree.go:76-78 | the length of every stored block's encoded proof, if and only if the keys span the tree |
| `Merkle.GenerateProofHash` | lib/merkle/proof.go:63-78 | the loop with its shifting index computes the root a proof stands for |
| `Merkle.VerifyProofUsing` | lib/merkle/proof.go:55-61 | accepts if and only if the recomputed root is the given one |
| `Merkle.EncodingExact` | lib/merkle/proof.go:80-126 | decoding undoes encoding, whatever stands behind the bytes, if and only if the hashes end at an offset of 32 bits |
| `Merkle.EncodeProof` | lib/merkle/proof.go:100-126 | the buffer holds the count, the hashes in order and the index at the end |
| `Merkle.EncodedLayout` | lib/merkle/proof.go:100-126 | the bytes hold the hash count modulo 2^32, the hashes in order and the index at the end |
| `Merkle.DecodeProof` | lib/merkle/proof.go:80-98 | gives hashes and index of a byte string, reading hashes on into its spare capacity; stops exactly when the counted hashes run past that or past the 32-bit offsets |
| `Merkle.AnyBytesDecode` | lib/merkle/proof.go:80-98 | bytes that start with a count and that many hashes decode to them and to the slice's last four bytes as the index, wherever the slice ends, unless it has fewer than four bytes |
| `Merkle.LargeCountStops` | lib/merkle/proof.go:82-89 | a count that runs past all bytes or past the 32-bit offsets stops |
| `XorAlgebra.RowXorLinear` | lib/server/point.go:82-90 | selection is linear in accumulator and query together, for blocks of any lengths |
| `XorAlgebra.RowXorUnit` | lib/server/point.go:85-87 | the query with one bit set selects that block alone |
| `XorAlgebra.BitIsShift` | lib/server/point.go:85 | the shifted test reads the bit of the position, least significant first |
| `XorAlgebra.SharesSum` | lib/client/pir_point.go:97-107 | the share vectors XOR to the unit vector whatever the random bytes |
| `XorAlgebra.SharesPick` | lib/client/pir_point.go:97-107 | together the share vectors have exactly the bit of the position set |
| `XorAlgebra.QueriesRetrieve` | lib/client/client.go:78-87 | if the servers' bit vectors together pick a block, their selections XOR to it, for any number of servers |
| `XorAlgebra.ResizedCut` | lib/client/client.go:80-84 | a block longer than the block size would be cut to it |
| `PointServer.BlocksOfSlice` | lib/server/point.go:71-75 | cutting entries and lengths at running offsets cuts the list of blocks |
| `PointServer.XorInto` | lib/server/point.go:86 | XORs in place over the shorter of buffer stretch and value and changes nothing else |
| `PointServer.XorValues` | lib/server/point.go:82-90 | one stretch of the answer becomes the selection from a row, through a running position over blocks of varying lengths |
| `PointServer.DomainExact` | lib/server/point.go:61 | the number of bits handed to the two-server library is the only one with 2^(bits - 1) <= columns < 2^bits |
| `PointServer.Server.Answer` | lib/server/point.go:55-80 | with two servers expands the key over the least domain that exceeds the columns; the answer is the concatenation of one selection a row |
| `PointClient.UnpadExtended` | lib/database/pgp.go:174-181 | unpadding recovers any block, also one ending in zeros, from signal byte and any number of zeros |
| `PointClient.UnpadDropped` | lib/database/pgp.go:174-181 | unpadding drops the zeros and whatever byte stands before them |
| `PointClient.PadBlockRoundTrip` | lib/database/pgp.go:164-181 | padding gives a multiple of the block length and is undone by unpadding |
| `PointClient.PadBlockShape` | lib/database/pgp.go:164-168 | padding appends 0x80 and 1 to blockLen zeros |
| `PointClient.Client.SecretShare` | lib/client/pir_point.go:80-110 | random vectors and a last one that completes them to the unit vector, in separate buffers |
| `PointClient.SharesAreRandom` | lib/client/pir_point.go:80-110 | every share but the last is its own stretch of the random bytes, columns / 8 + 1 bytes long |
| `PointClient.Client.Query` | lib/client/pir_point.go:46-68 | remembers row and column of the index; two servers get the two keys of the library for that column over the least domain that exceeds the columns, any other number the shares of the column |
| `PointClient.Client.ReconstructValue` | lib/client/client.go:78-87 | the XOR of all answers' stretches at the remembered row, or a stop exactly when an answer does not reach past it |
| `PointClient.Client.Reconstruct` | lib/client/client.go:49-76 | for answers of any lengths: returns the block for the classical types; for "merkle" unpads, splits, decodes and accepts only with a proof for the root; stops on short answers, malformed blocks and unknown types |
| `PointClient.OtherTypes` | lib/client/client.go:49-76 | the classical types accept every block as it is; no other type but "merkle" accepts anything |
| `PointClient.SplitOpens` | lib/client/client.go:54-72 | a block that is data, an encoded proof of the announced length, a non-zero byte and zeros is accepted as that data if and only if the proof decodes and recomputes the root |
| `PointClient.OnlySplitsOpen` | lib/client/client.go:54-72 | every other block stops the client |
| `MerkleDatabase.BlocksOfJoined` | lib/server/point.go:71-75 | cutting joined records at their lengths gives the records back |
| `MerkleDatabase.GenerateMerkleProofs` | lib/database/merkle.go:93-107 | appends block, encoded proof and signal byte for every block in order, or stops exactly when the keys do not span the tree |
| `MerkleDatabase.GenerateMerkle` | lib/database/pgp.go:115-146 | fails exactly on no blocks and stops exactly when a proof cannot be generated; otherwise the database holds the joined records, their lengths, a block size that covers all of them, the root and the proof length |
| `MerkleDatabase.RecordOpens` | lib/client/client.go:54-72 | a stored record, zero-extended, unpads and splits into its block and its generated proof; it is accepted as that block if the proof verifies and rejected if not |
| `MerkleDatabase.RecordOpensExactly` | lib/client/client.go:54-72 | it is accepted as its block if and only if the last block with its key is equal to it, unless the hash breaks |
| `MerkleDatabase.AcceptedIsStored` | lib/client/client.go:54-72 | whatever block was reconstructed, unless the hash breaks, accepted data is the stored block at the proof's index with its own proof if and only if the proof has depth-many hashes; fewer only on 60 bytes of data, more only when a stored block is 60 bytes long |
| `MerkleDatabase.RootRecordOpens` | lib/client/client.go:54-72 | the root's children in the form of a record are accepted whenever they fit the block size |
| `MerkleDatabase.SpareHashOpens` | lib/merkle/proof.go:87-89 | over the one-block tree that reads as the pair of any data's leaf and a hash of index, one byte and zeros, that data is accepted with a hash read past the end of the record, is not stored, and nothing breaks the hash |
| `MerkleDatabase.AskedBlockExact` | lib/client/client.go:54-72 | unless the hash breaks, accepted data with a full-length proof is the block at a given index if and only if the block at the proof's index is equal to it; with distinct blocks, if and only if the indices agree |
| `PointApir.RowsOfAnswers` | lib/client/client.go:82-84 | the client's stretch of each honest answer is the selection from the wanted row |
| `PointApir.BitVectorsPick` | lib/client/pir_point.go:46-68 | for any number of servers the bit vectors they work with have one length and together pick the column, for two servers over the least domain that exceeds the columns |
| `PointApir.SharesPointPossible` | lib/client/pir_point.go:57-60 | for any number of columns some library meets what the protocol assumes of it |
| `PointApir.AnswersXorToBlock` | lib/client/client.go:78-87 | honest answers to queries that together pick column iy XOR at row ix to block (ix, iy) zero-extended, for any number of servers and block lengths |
| `PointApir.Retrieve` | merkle_test.go:52-83 | query, all answers and reconstruction as one run: the classical types return the zero-extended block at the index, "merkle" opens it, every other type stops |
| `PointApir.RetrieveAuthenticated` | merkle_test.go:52-83 | over an authenticated database the client accepts and returns exactly the original block, for every index |
| `PointApir.BuildAndRetrieve` | merkle_test.go:37-83 | from any list of blocks without different ones under one key: tree, records and database are built, queried at any index and XORed, and the client accepts and returns the original block |
| `PointApir.PatchedAnswers` | lib/client/client.go:82-84 | bytes XORed into one server's answer end up XORed into the reconstructed block |
| `PointApir.OtherBlockAccepted` | lib/client/client.go:54-72 | the difference of two records XORed into one server's answer to a query for the first makes the client accept the second block |

## Left out

- PredicateApir.Retrieve: assumes that no converted word that matters equals the modulus and that year differences stay below 2^33, where the 64-bit product of the source is exact; without the first the result is not determined (`FssPoint.ResamplingExact`).
- PredicateClient.Client.Query: at most 19 words a key, four PRF blocks, because the source has four cipher keys.
- Query.InputExact: the client's own input exists; for an identifier shorter than the selected prefix or suffix the source queries the empty string. Marshalled times have one length, as the time encoding gives them.
- PredicateServer.Server.Answer: query kinds on which the source panics (sum, unrecognised combinations) and inputs longer than the key are preconditions.
- Merkle.MerkleTree.NewUsing: at most 2^31 blocks, above which the source's 32-bit node index wraps.
- Merkle.DecodeProof: the memory for a claimed number of hashes is taken as available.
- MatrixCodec.BytesToMatrices: a claimed size below the eight bytes of a header, on which the source stops, is excluded by precondition.
- PointClient.Client.Reconstruct: an answer that ends before the wanted row counts as a stop even where its own spare capacity would reach further.
- PointApir.Retrieve: for two servers assumes that the dpf-go library's keys, expanded over the least domain that exceeds the columns, differ in exactly the bit of the position; the library's code is not part of this model.
- PointServer.Server.Answer: bit vectors shorter than the columns, on which the source panics, are excluded by precondition.
- MerkleDatabase.GenerateMerkle: covers both constructions of the database from a list of blocks; loading and hashing keys into blocks, and spare capacity shared between appended slices, are not modelled.
- Lwe.Client.Query: the error row is an input; Gaussian sampling, its floating-point tables and the computation of the bound B are not part of this model.
- Matrices.Mul: dimension mismatches, on which the source panics, are preconditions.
- PredicateMac.ReplacedCountForgeries: counts key vectors; turning the count into a probability needs a uniform draw, which is not modelled.
- AmplifyIntegrity.AmplifiedForgeries: counts scalar vectors for fixed noise and offsets; the parameter script divides by 2^32 - 4B + 1 scalars, two fewer than separate, and its probabilities are not modelled.
- Internals of AES, BLAKE3, BLAKE2b, FNV and the random generators: library code, taken as parameters.
- The Diffie-Hellman scheme: the same linear reconstruction without noise over an opaque group.
- The 128-bit LWE instance: the same algebra at another modulus.
- Wall-clock time: the current year is an input, the same for both servers.
- Error texts: all errors of one operation are one value.
- gob, gRPC, TLS, OpenPGP parsing, configuration, command line, web and simulation code: input and output.
- Goroutines in database construction: the source uses one worker and concatenates.
- Privacy and computational hardness: not functional properties.
