# Verified models of the multi-precision, tree, cipher, codec and buffer code

This project models the hard parts of a C and C++ network library and proves what they are for:

1. **Multi-precision arithmetic (RSAREF)**: natural numbers as little-endian arrays of 32-bit digits, with carries
   and borrows found by wrap-around comparison; long division with an underestimated trial digit; 2-bit windowed
   modular exponentiation; a sign-tracking extended Euclid on unsigned numbers; the Fermat test and the bounded
   prime search; Diffie-Hellman. Every routine is specified over the integers through the value of its digits
   (`DigitSequences.Val`), for any number of digits up to the capacity of the local arrays.
2. **The red-black tree with parent pointers**: a tree is a value (`RedBlackTree.Tree`), a place in it a context
   around a subtree (`Ctx`), and the fields of the nodes and the root pointer form one memory value
   (`RedBlackHeap.Mem`). The pointer code is proved to change the memory by given functions, and those to rotate,
   recolour, splice and replace subtrees at the place. Insertion, removal and iteration are stated about the
   in-order sequence and the red-black conditions of the whole tree.
3. **Ciphers and digests as streams**: DES, DESX and triple DES in CBC mode for any S-boxes, against the permutations,
   rounds and key schedule of FIPS 46-3 (`DesStandard`, `DesFips`); MD5 and MD2 for any block transform.
4. **Codecs**: the tagged variable-width stream, with and without its struct-end marks in force, and JSON printing and
   parsing, with its double arithmetic, against the grammar of RFC 8259 (`JsonGrammar`, `JsonEscapes`).
5. **Shared structures**: the ring buffer, and the compare-and-swap slot table as a state machine whose steps are
   the atomic accesses of the calls.

Conventions. Code that updates arrays, objects or pointers is imperative here too; its contracts name functions of
the old state or state the property outright. Buffers that a routine only reads are sequences, except where the
source lets them be the output (the digit arrays, the CBC buffers, the checksum of MD2). Random bytes and the
calling thread are parameters. `hide` statements only keep definitions out of a proof.

Where the code and its comments differ, the model follows the code:

- NN_AddDigitMult and NN_SubDigitMult return early on a zero multiplier and then do not copy b to a
  (`src/nd_crypt/rsa/nn.c:563-564` and `592-593`); all callers pass the same array for both.
- NN_ModExp gives 1 for exponent 0 even when the modulus is 1, and NN_Div leaves its results alone on a zero
  divisor; the comments do not say so.
- The comments ask for fewer digits than MAX_NN_DIGITS; the arrays are large enough for exactly that many, and the
  contracts allow it.
- ProbablePrime rejects 2 always, and 3, 5, 7 and 11 when they are given in more than one digit: `PrimesPass` is
  the exact condition.
- GeneratePrime can start at a number that is not 1 modulo d, or is below b, when c is the greatest number of its
  digits and d divides c: `StartWraps` gives the random number, `StartInRange` the exact condition, and
  `BadSuccessExact` when it can return such a number.
- GeneratePrime need not return when d is 0 or above c: `SearchNeverEnds` gives such a call, `NoSteps` the exact
  condition for d = 0.
- parse_number rounds at every digit, so a printed number can come back changed: `PrintedIsParsed` says when a tree of
  whole numbers up to 2^55 does not, and `Two63Changes` gives a larger one that does.
- parse_string can write beyond the length it allocates when a malformed escape reaches over the closing quote:
  `Overrun` gives such a text, `RoomExact` and `ContainedByEscapes` the exact condition, and `ValidFits` shows that no
  valid string is one.
- MD5Update and MD2Update read beyond their input when buffered bytes and input together reach 2^32 bytes:
  `CounterExact` is the exact condition.

Double arithmetic is that of IEEE 754 with 53 bits, each operation rounded once to nearest, ties to even
(`Doubles`); a compiler that keeps more bits or fuses operations computes otherwise.

The colour bit that the tree code packs into the parent word is a field of its own. Lengths and positions in the
JSON and stream code are unbounded integers.

## Model

| member | source | states |
|---|---|---|
| DigitArithmetic.DigitMult | src/nd_crypt/rsa/digit.c:17-40 | the two result digits are the exact product of two digits, from four half-digit products with wrapped carries |
| DigitArithmetic.TrialUnderestimates | src/nd_crypt/rsa/digit.c:62-65 | dividing by the high half of the divisor plus one never overestimates the quotient |
| DigitArithmetic.HighQuotient | src/nd_crypt/rsa/digit.c:60-81 | the high half-digit of the quotient: the correction loop ends with the exact value and the remainder below the shifted divisor |
| DigitArithmetic.LowQuotient | src/nd_crypt/rsa/digit.c:83-104 | the low half-digit likewise, exact after the correction loop |
| DigitArithmetic.DigitDiv | src/nd_crypt/rsa/digit.c:48-107 | two digits divided by one are exactly the floor of the quotient when the upper digit is below the divisor and the divisor has a nonzero high half |
| NaturalNumbers.Assign | src/nd_crypt/rsa/nn.c:77-85 | a becomes the digits of b, also when they are the same array |
| NaturalNumbers.AssignZero | src/nd_crypt/rsa/nn.c:91-99 | the value of a becomes 0 |
| NaturalNumbers.AssignDigit | include/nd_crypt/rsah/nn.h:112-112 | the value of a becomes the digit |
| NaturalNumbers.Add | src/nd_crypt/rsa/nn.c:122-142 | value of the result plus carry times the base power is the sum; carry 0 or 1 found by wrap-around comparison; operands may be the result |
| NaturalNumbers.Sub | src/nd_crypt/rsa/nn.c:148-168 | value of the result minus borrow times the base power is the difference |
| NaturalNumbers.AddDigitMult | src/nd_crypt/rsa/nn.c:556-579 | a = b + c*d with the returned carry digit; a zero c leaves a alone |
| NaturalNumbers.SubDigitMult | src/nd_crypt/rsa/nn.c:585-608 | a = b - c*d with the returned borrow digit; a zero c leaves a alone |
| NaturalNumbers.Cmp | src/nd_crypt/rsa/nn.c:488-502 | the sign of the difference of the values |
| NaturalNumbers.Zero | src/nd_crypt/rsa/nn.c:508-519 | true exactly when the value is 0 |
| NaturalNumbers.Digits | src/nd_crypt/rsa/nn.c:539-550 | the number of significant digits: the value is in them and the topmost is nonzero |
| Shifts.DigitBits | src/nd_crypt/rsa/nn.c:612-622 | the bit length of a digit: the least power of two above it |
| Shifts.LShift | src/nd_crypt/rsa/nn.c:202-223 | value times 2^c, split into the result and the carry digit, for c below 32 |
| Shifts.RShift | src/nd_crypt/rsa/nn.c:230-252 | value divided by 2^c rounded down, and the bits shifted out at the top of the carry digit, for c below 32; a larger c changes nothing |
| Multiplication.AddRow | src/nd_crypt/rsa/nn.c:187-188 | one row of the schoolbook product adds digit times multiplicand times the weight of its place |
| Multiplication.Mult | src/nd_crypt/rsa/nn.c:175-195 | the 2n digits of the result hold the exact product, also in place |
| Division.TrialDigitUnderestimates | src/nd_crypt/rsa/nn.c:285-289 | for a normalised divisor the trial digit from the top two digits is never above the true quotient digit |
| Division.QuotientDigit | src/nd_crypt/rsa/nn.c:282-298 | one step of long division: the digit is exact, fits the base, the correction loop terminates and the window left is below the divisor |
| Division.DivideLoop | src/nd_crypt/rsa/nn.c:282-299 | the whole quotient of the normalised operands, and the remainder in the low digits |
| Division.Div | src/nd_crypt/rsa/nn.c:260-310 | for every divisor above 0: quotient and remainder are those of integer division; a zero divisor leaves both alone; remainder or quotient may overwrite an operand |
| Division.Mod | src/nd_crypt/rsa/nn.c:317-328 | the remainder, also when it overwrites dividend or divisor |
| ModularExponent.ModMult | src/nd_crypt/rsa/nn.c:335-347 | the product of two numbers modulo d |
| ModularExponent.WindowStep | src/nd_crypt/rsa/nn.c:384-391 | squaring twice and multiplying by b^s turns b^e mod d into b^(4e+s) mod d |
| ModularExponent.SkipZeroPairs | src/nd_crypt/rsa/nn.c:377-382 | skipping leading zero bit pairs of the top digit loses nothing of the exponent |
| ModularExponent.ExponentLoop | src/nd_crypt/rsa/nn.c:371-392 | after all digits t holds b^c mod d |
| ModularExponent.ModExp | src/nd_crypt/rsa/nn.c:354-400 | b^c mod d for every base, every modulus above 0 and every exponent above 0; exponent 0 gives 1 |
| NumberTheory.GcdIsGcd | src/nd_crypt/rsa/nn.c:455-458 | the Euclid recursion gives a common divisor that every common divisor divides |
| ModularInverse.GcdOf | src/nd_crypt/rsa/nn.c:460-482 | the result is the greatest common divisor of the operands |
| ModularInverse.EuclidStep | src/nd_crypt/rsa/nn.c:426-433 | one round keeps sign*u1*b = u3 (mod c), its mirror for v, and the bound that keeps the cofactors within c, so the truncated addition loses nothing |
| ModularInverse.EuclidLoop | src/nd_crypt/rsa/nn.c:425-434 | the loop ends, with the last remainder the gcd and the cofactor in range |
| ModularInverse.ModInv | src/nd_crypt/rsa/nn.c:407-453 | for coprime operands and c > 1 the result lies strictly between 0 and c and times b is 1 modulo c; a times b is gcd(b, c) modulo c in general |
| Conversion.Decode | src/nd_crypt/rsa/nn.c:27-45 | the value of the big-endian bytes modulo the base power of the digits: leading bytes that do not fit are cut off |
| Conversion.Encode | src/nd_crypt/rsa/nn.c:54-71 | the big-endian bytes of the value modulo 256^len: high digits that do not fit are cut off |
| ByteStrings.BigEndianInjective | src/nd_crypt/rsa/nn.c:47-53 | byte strings of one length with the same value are the same |
| Conversion.ThroughBytes | src/nd_crypt/rsa/nn.c:27-71 | encoding and then decoding gives the digits back if and only if the number fits in the bytes |
| Conversion.ThroughDigits | src/nd_crypt/rsa/nn.c:27-71 | decoding and then encoding gives the bytes back if and only if the number fits in the digits |
| NumberTheory.PrimeDividesProduct | src/nd_crypt/rsa/prime.c:120-125 | a prime that divides a product divides a factor |
| NumberTheory.FermatForTwo | src/nd_crypt/rsa/prime.c:120-143 | 2^p = 2 modulo p for every prime p, from the binomial coefficients of a prime row |
| Primality.SmallFactor | src/nd_crypt/rsa/prime.c:91-118 | true exactly when 3, 5, 7 or 11 divides the number, unless it is that prime in a single digit |
| Primality.FermatTest | src/nd_crypt/rsa/prime.c:126-143 | true exactly when 2^a mod a is 2 |
| Primality.ProbablePrime | src/nd_crypt/rsa/prime.c:79-84 | true exactly when there is no small factor and the Fermat test holds |
| Primality.PrimesPass | src/nd_crypt/rsa/prime.c:79-143 | a prime passes if and only if it is above 11, or it is odd and given in a single digit: so 2 never passes, and 3, 5, 7 and 11 fail with two or more digits |
| Primality.StartInRange | src/nd_crypt/rsa/prime.c:41-58 | the adjusted random start is in [b, c] and 1 modulo d for all random numbers if and only if c+1 fits the digits, or d does not divide c, or b = d = 1 |
| Primality.StartWraps | src/nd_crypt/rsa/prime.c:52-58 | the random number for which the start is bad otherwise |
| Primality.Search | src/nd_crypt/rsa/prime.c:60-71 | the first number from the start, in steps of d modulo the base power, that passes or is beyond c - d, for any d for which there is one; 0 in the first case and RE_DATA in the second |
| Primality.SearchInSteps | src/nd_crypt/rsa/prime.c:60-71 | for d from 1 up to c the search ends: with the first candidate up to c that passes, or with RE_DATA when none does |
| Primality.NoSteps | src/nd_crypt/rsa/prime.c:60-71 | for d = 0 the search ends if and only if the start passes or is above c |
| Primality.GeneratePrime | src/nd_crypt/rsa/prime.c:30-72 | for any random bytes and any d for which the search ends, and so for every d from 1 up to c: the number at which it stops from the start that they determine; RE_NEED_RANDOM when unseeded |
| Primality.GeneratedPrimeGood | src/nd_crypt/rsa/prime.c:30-72 | a successful result lies in [b, c], is 1 modulo d and passes the test, for all random numbers, whenever the condition of StartInRange holds |
| Primality.BadSuccessExact | src/nd_crypt/rsa/prime.c:41-72 | some call succeeds with a result outside [b, c] or not 1 modulo d if and only if the condition of StartInRange fails and a multiple of d up to c, for d = 1 a number below b, passes the test |
| Primality.SeventeenReturned | src/nd_crypt/rsa/prime.c:41-72 | such a call: b = 1, c = 2^32 - 1, d = 17 in one digit give 17, which is 0 modulo d |
| Primality.SearchNeverEnds | src/nd_crypt/rsa/prime.c:56-71 | a call that does not return: for b = c = 4 and d = 2^31 in one digit, and any random bytes, the search goes for ever between 1 and 2^31 + 1, neither of which passes |
| DiffieHellman.SetupDHAgreement | src/nd_crypt/rsa/r_dh.c:69-104 | the private value is the random bytes, and the public value the big-endian bytes of g^x mod p, with every number cut to the digits of the modulus |
| DiffieHellman.ComputeDHAgreedKey | src/nd_crypt/rsa/r_dh.c:112-145 | RE_DATA exactly when the other value is not below the modulus; else the key is y^x mod p |
| DiffieHellman.HonestValueAccepted | src/nd_crypt/rsa/r_dh.c:130-131 | a value made by the other side passes the range check if and only if the modulus is above 1 or its exponent is not 0 |
| DiffieHellman.PowersCommute | src/nd_crypt/rsa/r_dh.c:133-137 | raising to one private value and then the other gives the same number in both orders |
| DiffieHellman.Agreement | src/nd_crypt/rsa/r_dh.c:69-145 | a whole run between two parties with any private values and any modulus above 1: nothing is rejected and both keys are byte for byte the same |
| RedBlackTree.UnplugRedBlack | src/nd_common/src/bintree.c:121-125 | a subtree of a valid tree is balanced, and so is the context around it, at the black height of the subtree |
| RedBlackTree.PlugRedBlack | src/nd_common/src/bintree.c:121-125 | any balanced subtree of that black height, black where it must be, completes such a context to a valid tree |
| RedBlackHeap.RotateLeftFocus | src/nd_common/src/bintree.c:10-31 | the pointer code turns the subtree at any place into its left rotation, with all parent, child and root links consistent, and the in-order sequence of the whole tree unchanged |
| RedBlackHeap.RotateRightFocus | src/nd_common/src/bintree.c:33-54 | the mirror rotation likewise |
| RedBlackInsert.InsertFlip | src/nd_common/src/bintree.c:67-76 | the red uncle case: the only fault moves two levels up |
| RedBlackInsert.InsertRotateL | src/nd_common/src/bintree.c:78-89 | the black uncle case of a left parent: the fault is gone |
| RedBlackInsert.InsertRotateR | src/nd_common/src/bintree.c:103-114 | the black uncle case of a right parent: the fault is gone |
| RedBlackInsert.InsertStep | src/nd_common/src/bintree.c:60-115 | one round keeps "the only possible fault is a red node below a red parent at the focus" and brings it strictly closer to the root |
| RedBlackInsert.InsertColor | src/nd_common/src/bintree.c:56-119 | from one red leaf in an otherwise valid tree to a valid tree with a black root, with the in-order sequence unchanged; the loop ends |
| RedBlackInsert.LinkNode | include/nd_common/nd_bintree.h:232-237 | the new red node hangs in the given empty place, and all links stay consistent |
| RedBlackInsert.Insert | src/nd_common/src/bintree.c:56-119 | linking and rebalancing puts exactly the new node at the chosen place of the in-order sequence of a valid tree, and the tree is valid again |
| RedBlackEraseColor.RedSiblingShort | src/nd_common/src/bintree.c:131-137 | after the red sibling step the focus lacks as much as before and its sibling is black |
| RedBlackEraseColor.BlackNephews | src/nd_common/src/bintree.c:138-144 | with two black nephews the shortage moves to the parent |
| RedBlackEraseColor.RedNephewL | src/nd_common/src/bintree.c:145-160 | with a red nephew the rotations make the whole tree valid, on the left |
| RedBlackEraseColor.RedNephewR | src/nd_common/src/bintree.c:179-194 | and on the right |
| RedBlackEraseColor.EraseStep | src/nd_common/src/bintree.c:126-196 | one round keeps "every path through the focus is one black node short, and nothing else is wrong" and either ends the repair or goes on with fewer rounds left |
| RedBlackEraseColor.EraseColor | src/nd_common/src/bintree.c:121-199 | from a tree one black node short to a valid tree with the same in-order sequence, through every case; the loop ends |
| RedBlackErase.PromotedAgrees | src/nd_common/src/bintree.c:213-246 | the assignments that put the successor in the place of the removed node have, in their order, the effect of splicing it out and then replacing the node, whether or not it is the right child itself |
| RedBlackErase.PromoteSuccessor | src/nd_common/src/bintree.c:209-248 | a node with two children is replaced by its successor, the first node of its right subtree; the colour returned is that of the successor, and the tree is short exactly when it was black |
| RedBlackErase.SpliceOut | src/nd_common/src/bintree.c:251-262 | a node with at most one child is taken out; the colour returned is its own, and the tree is short exactly when it was black |
| RedBlackErase.Erase | src/nd_common/src/bintree.c:201-266 | for any node of any valid tree: exactly that node leaves the in-order sequence, all links are consistent, and the tree is valid |
| RedBlackErase.ReplaceNode | src/nd_common/src/bintree.c:412-433 | a node outside the tree takes the place, children and colour of one inside |
| RedBlackIterate.First | src/nd_common/src/bintree.c:338-348 | the first node of the in-order sequence, null if there is none |
| RedBlackIterate.Last | src/nd_common/src/bintree.c:349-359 | the last node of the in-order sequence, null if there is none |
| RedBlackIterate.Next | src/nd_common/src/bintree.c:360-386 | the node after the given one in the in-order sequence, null after the last; null for a node that is its own parent |
| RedBlackIterate.Prev | src/nd_common/src/bintree.c:388-410 | the node before the given one, null before the first |
| RedBlackIterate.Walk | src/nd_common/src/bintree.c:338-386 | rb_first and repeated rb_next visit every node of the tree exactly once, in order, and then give null |
| RedBlackIterate.WalksInverse | src/nd_common/src/bintree.c:360-410 | one node follows another if and only if the other precedes it, and both steps are determined |
| RedBlackIterate.StepAndBack | src/nd_common/src/bintree.c:360-410 | rb_prev of rb_next and rb_next of rb_prev lead back, except at the ends |
| DesCipher.InitialFinal | src/nd_crypt/rsa/desc.c:579-597 | the bit exchanges before the rounds undo those after them, up to the order of the halves |
| DesCipher.FinalInitial | src/nd_crypt/rsa/desc.c:626-644 | and the other way round |
| DesCipher.RoundsUndone | src/nd_crypt/rsa/desc.c:599-624 | any number of Feistel rounds is undone by the same rounds with the keys reversed, for any S-boxes |
| DesCipher.CipherUndone | src/nd_crypt/rsa/desc.c:572-645 | the block transform with reversed keys undoes the block transform |
| DesCipher.DESFunction | src/nd_crypt/rsa/desc.c:572-645 | the two words of the block become the exchanges, sixteen rounds in order and exchanges of the old ones |
| DesStandard.InitialIsIP | src/nd_crypt/rsa/desc.c:579-597 | the exchanges before the rounds are, bit for bit, the initial permutation IP of FIPS 46-3, with both halves rotated up by one bit |
| DesStandard.ScrambledIsStandard | src/nd_crypt/rsa/desc.c:600-622 | the index of each S-box table is that of FIPS 46-3: the six bits that E selects for the box, XOR its six bits of the round key, although the code takes them from rotated words and rearranged keys |
| DesKeys.CookKey | src/nd_crypt/rsa/desc.c:545-570 | the schedule holds the cooked round keys in order when encrypting and in reverse when decrypting |
| DesKeys.DESKey | src/nd_crypt/rsa/desc.c:497-543 | the schedule of a key, in the order of use; `DesFips.ScheduleIsStandard` says which key bits it holds |
| DesKeys.ScheduleUndone | src/nd_crypt/rsa/desc.c:497-570 | deciphering with a key undoes enciphering with it, in both directions |
| DesKeys.ParityIgnored | src/nd_crypt/rsa/desc.c:22-27 | keys that differ only in the last bit of each byte have the same schedule |
| DesFips.ScheduleIsStandard | src/nd_crypt/rsa/desc.c:497-543 | for every key, round and place, the bit of the round key is the key bit that permuted choice 1, the left shifts of the rounds so far and permuted choice 2 of FIPS 46-3 select, in the numbering of the standard |
| DesFips.CipherIsDes | src/nd_crypt/rsa/desc.c:572-645 | with the schedule of a key the block transform is the initial permutation, sixteen Feistel rounds with the round keys of the standard and the inverse permutation, and with the reversed schedule the inverse of that |
| DesFips.TransformIsStandard | src/nd_crypt/rsa/desc.c:318-459 | DESX is DES with a block XORed before and one after; triple DES enciphers, deciphers and enciphers with its three keys; in both directions |
| DesFips.PackIsBigEndian | src/nd_crypt/rsa/desc.c:469-495 | the bits of a block are numbered byte by byte, the most significant bit of each first |
| DesChaining.TransformUndone | src/nd_crypt/rsa/desc.c:383-459 | each direction of DES, DESX and triple DES (with its reversed, alternating keys) undoes the other on a block |
| DesChaining.PackUnpack | src/nd_crypt/rsa/desc.c:469-495 | packing eight unpacked bytes gives the block back |
| DesChaining.UnpackPack | src/nd_crypt/rsa/desc.c:469-495 | unpacking eight packed bytes gives the bytes back |
| DesChaining.UpdateIsCbc | src/nd_crypt/rsa/desc.c:240-267 | the mode is CBC: every ciphertext block is the cipher of its plaintext block XOR the ciphertext block before it, or the vector, every plaintext block the inverse cipher of its ciphertext block XOR the same, and the vector left behind is the last ciphertext block |
| DesFips.ChainedIsStandard | src/nd_crypt/rsa/desc.c:240-267 | so every ciphertext block enciphers, by the standard, its plaintext block XOR the ciphertext block before it |
| DesChaining.ChainUndone | src/nd_crypt/rsa/desc.c:227-276 | chaining in one direction is undone by chaining in the other, on any number of blocks |
| DesChaining.RunIsUpdate | src/nd_crypt/rsa/desc.c:223-226 | however a message is cut into update calls, the output is that of one call |
| DesChaining.DecryptionInvertsEncryption | src/nd_crypt/rsa/desc.c:200-276 | for every key, vector and message of whole blocks decryption gives the message back, however message and ciphertext are cut into update calls |
| DesContexts.DesCbc.CBCUpdate | src/nd_crypt/rsa/desc.c:227-276 | input and output are the two sides of CBC and the vector is the last ciphertext block, also when output is the input buffer; the output continues that of earlier calls; a length that is no multiple of 8 gives the length error and changes nothing |
| DesContexts.DesxCbc.CBCUpdate | src/nd_crypt/rsa/desc.c:318-371 | the same with both whiteners |
| DesContexts.Des3Cbc.CBCUpdate | src/nd_crypt/rsa/desc.c:408-459 | the same with the three schedules |
| DesContexts.DesCbc.CBCRestart | src/nd_crypt/rsa/desc.c:278-284 | the vector is the original one again |
| DesContexts.DesCbc.constructor | src/nd_crypt/rsa/desc.c:200-221 | vector, flag and schedule of the key in the chosen direction |
| DesContexts.DesxCbc.constructor | src/nd_crypt/rsa/desc.c:289-312 | the same, and the whiteners from the second and third part of the key |
| DesContexts.Des3Cbc.constructor | src/nd_crypt/rsa/desc.c:383-406 | three schedules, of the keys in the reversed order when decrypting, the middle one in the opposite direction |
| DesContexts.DesCbc.Pieces | src/nd_crypt/rsa/desc.c:227-276 | any sequence of update calls on a context puts out the run of its pieces |
| DesContexts.DesxCbc.Pieces | src/nd_crypt/rsa/desc.c:318-371 | the same for DESX |
| DesContexts.Des3Cbc.Pieces | src/nd_crypt/rsa/desc.c:408-459 | the same for triple DES |
| DesContexts.RoundTripDes | src/nd_crypt/rsa/desc.c:200-276 | a message that goes through an encrypting context in any pieces and through a decrypting one in any other pieces comes out unchanged |
| DesContexts.RoundTripDesx | src/nd_crypt/rsa/desc.c:289-371 | the same for DESX |
| DesContexts.RoundTripDes3 | src/nd_crypt/rsa/desc.c:383-459 | the same for triple DES |
| Md5.AddBits | src/nd_crypt/rsa/md5c.c:126-130 | the two count words grow by eight times the length modulo 2^64, with the carry found by comparison |
| BlockStreams.CounterExact | src/nd_crypt/rsa/md5c.c:134-150 | the loop over the blocks of a piece, with its 32-bit counter and blocks of 64 or 16 bytes, reads inside the piece if and only if the buffered bytes and the piece together have a length of 32 bits |
| Md5.Context.Init | src/nd_crypt/rsa/md5c.c:97-111 | a context is that of the empty message |
| Md5.InitialBytes | src/nd_crypt/rsa/md5c.c:104-109 | the state starts from the sixteen bytes of section 3.3 of RFC 1321, the low-order byte of each word first |
| Md5.PaddedLayout | src/nd_crypt/rsa/md5c.c:166-176 | the padded message, place by place: a one bit, zero bits, and in the last eight bytes the bit count modulo 2^64, to the next multiple of 64 bytes and no more |
| Md5.Context.Update | src/nd_crypt/rsa/md5c.c:116-153 | state, count and buffer are those of the message so far followed by the input, for every input that with the buffered bytes has a length of 32 bits |
| Md5.Context.Final | src/nd_crypt/rsa/md5c.c:155-183 | the digest is that of section 3 of RFC 1321: pad to 56 modulo 64, append the bit count modulo 2^64, fold the blocks |
| Md5.DigestInPieces | src/nd_crypt/rsa/md5c.c:97-183 | however a message is cut into updates, the digest is that of the whole message |
| Md2.Context.Init | src/nd_crypt/rsa/md2c.c:78-88 | a context is that of the empty message |
| Md2.Context.Update | src/nd_crypt/rsa/md2c.c:93-125 | state, checksum and buffer are those of the message so far followed by the input, for every input that with the buffered bytes has a length of 32 bits, also when the input is the context's own checksum within the block begun |
| Md2.Context.Final | src/nd_crypt/rsa/md2c.c:127-151 | the digest is that of section 3 of RFC 1319: pad, append the checksum of the padded message, fold; the checksum array is passed as input and changes meanwhile |
| Md2.DigestInPieces | src/nd_crypt/rsa/md2c.c:78-151 | however a message is cut into updates, the digest is that of the whole message |
| NetBytes.BigRoundTrip | include/nd_net/nd_netbyte.h:17-84 | reading k big-endian bytes gives back the number written if and only if it is below 256^k |
| NetBytes.PutsAreBig | include/nd_net/nd_netbyte.h:17-43 | the bytes of the three put functions are the big-endian bytes of the value |
| NetBytes.GetsAreBig | include/nd_net/nd_netbyte.h:46-84 | the three get functions give the big-endian value of the bytes |
| ProtoWrite.WriteStream.Write32 | src/ndapplib/nd_protoStream.cpp:72-97 | the marker and the least of 0, 1, 2 and 4 bytes are appended if there is room for them, and otherwise the write fails, with at most the marker written |
| ProtoWrite.WriteStream.Write16 | src/ndapplib/nd_protoStream.cpp:98-116 | the same for 16 bits |
| ProtoWrite.WriteStream.Write64 | src/ndapplib/nd_protoStream.cpp:118-149 | the same for 64 bits |
| ProtoWrite.WriteStream.Write8 | src/ndapplib/nd_protoStream.cpp:181-192 | the same for 8 bits |
| ProtoWrite.WriteStream.WriteForce16 | src/ndapplib/nd_protoStream.cpp:63-69 | marker and two bytes |
| ProtoWrite.WriteStream.WriteForce32 | src/ndapplib/nd_protoStream.cpp:56-62 | marker and four bytes |
| ProtoWrite.WriteStream.SetStructEnd | src/ndapplib/nd_protoStream.cpp:195-198 | the struct-end mark is appended if there is room |
| ProtoWrite.WriteStream.WriteText | src/ndapplib/nd_protoStream.cpp:277-312 | marker, 16-bit length, text and closing byte if there is room for all of them |
| ProtoWrite.WriteStream.WriteBin | src/ndapplib/nd_protoStream.cpp:314-344 | marker, 16-bit length and data if there is room for all of them |
| ProtoWrite.WriteItems | src/ndapplib/nd_protoStream.cpp:56-344 | a run of writes succeeds exactly when there is room for all items, and the stream has then grown by their bytes in order |
| ProtoWrite.NumbersOnWire | src/ndapplib/nd_protoStream.cpp:56-192 | the marker byte of every integer type and width, and how many bytes follow it, most significant first |
| ProtoWrite.StringsOnWire | src/ndapplib/nd_protoStream.cpp:195-344 | the bytes of strings and of the struct-end mark |
| ProtoRead.ReadStream.ReadTypeSize | src/ndapplib/nd_protoStream.cpp:835-865 | the next marker, with struct-end marks skipped or reported and skip commands obeyed |
| ProtoRead.ReadStream.ReadInt | src/ndapplib/nd_protoStream.cpp:667-787 | the integer behind a marker of the wanted type and of an allowed size; at a struct-end mark in force it fails right behind the mark and reports it, at a marker of another type it fails right behind that, and at the end of the data it stays |
| ProtoRead.ReadStream.ReadString | src/ndapplib/nd_protoStream.cpp:1051-1115 | the string behind a marker of the wanted type that fits the buffer, closed with a zero for a text; marks, other markers and the end of the data as for ReadInt; a buffer of size 0 is excluded only for an empty text, for which the source writes its first byte |
| ProtoRoundTrip.ItemReadsBack | src/ndapplib/nd_protoStream.cpp:667-787 | every value is read back by the typed read that fits it |
| ProtoRoundTrip.StreamReadsBack | src/ndapplib/nd_protoStream.cpp:667-1115 | in skip-marker mode the fitting reads give back exactly the values of any sequence of items, with struct-end marks anywhere between them, and leave only marks unread |
| ProtoRoundTrip.AllRead | src/ndapplib/nd_protoStream.cpp:667-1115 | when the last item is a value, the reads take every byte |
| ProtoRoundTrip.Transmit | src/ndapplib/nd_protoStream.cpp:56-1115 | writing items to a buffer and reading the written bytes gives their values, and leaves no byte when the last item is a value |
| ProtoRoundTrip.ItemSkipped | src/ndapplib/nd_protoStream.cpp:884-923 | the marker of any item, also of a float, a double or an address, leads exactly past it, whatever its payload bytes are |
| ProtoRoundTrip.TrytoMoveStructEnd | src/ndapplib/nd_protoStream.cpp:867-933 | on a stream of items, also of floats, doubles and addresses, with skipping off it stops right after the first struct-end mark and returns true, or returns false when there is none; whenever it returns false, on any data, the position is the old one |
| ProtoStructs.FieldsReadBack | src/ndapplib/nd_protoStream.cpp:667-848 | with the marks in force, fitting reads give the fields of a structure, and one read too many fails right behind its struct-end mark, which is then reported |
| ProtoStructs.ReadStruct | src/ndapplib/nd_protoStream.cpp:667-933 | whether fields are left or one read was too many, TrytoMoveStructEnd then leaves the reader at the first item of the next structure |
| ProtoStructs.ReadStructs | src/ndapplib/nd_protoStream.cpp:667-933 | a stream of structures is read to its end, each giving its own fields, by readers that want fewer fields than there are or one more |
| ProtoStructs.TransmitStructs | src/ndapplib/nd_protoStream.cpp:56-933 | structures that are written, if there is room, are read back so by any such reader |
| ProtoStructs.CommandsReadBack | src/ndapplib/nd_protoStream.cpp:856-863 | between the commands that switch the marks off and on again, the fitting reads give the values with the marks among them passed over; behind them the marks are in force |
| JsonPrint.PrintString | src/nd_common/src/cJSON.c:216-249 | the quoted and escaped text; every write is within the length computed first, and the size given to ndsnprintf cuts nothing |
| JsonPrint.EscapeWithin | src/nd_common/src/cJSON.c:243-243 | the length given to ndsnprintf as its size is at least that of any one escape |
| JsonNumbers.NumberTextFits | src/nd_common/src/cJSON.c:119-140 | the text of every double is shorter than the 21 or 64 bytes allocated for its format |
| JsonNumbers.PrintedNear | src/nd_common/src/cJSON.c:123-138 | the number that a text stands for is within 2^-52 of the one printed for the whole formats, half a millionth for %f, and half of its seventh digit for %e |
| JsonNumbers.AccuracyBySize | src/nd_common/src/cJSON.c:123-138 | the same by the size of the number: half a millionth from 10^-6 to 10^9, half of the seventh digit beyond |
| JsonNumbers.ExponentBySize | src/nd_common/src/cJSON.c:131-137 | no text has an exponent between 10^-6 and 10^9; below, every one has that is not printed as 0, and above, every one that is not near a whole number |
| JsonNumbers.CharactersShown | src/nd_common/src/cJSON.c:119-140 | digits, signs, point and exponent letter of the printed numbers, byte by byte |
| JsonNumbers.WholeExact | src/nd_common/src/cJSON.c:123-134 | whole numbers below 10^60 are printed exactly |
| JsonPrint.PrintNumber | src/nd_common/src/cJSON.c:119-141 | the text of any double in the format that its size and fraction select, within the memory allocated |
| JsonPrint.PrintArray | src/nd_common/src/cJSON.c:349-404 | the text of an array; every write is within the length summed up first |
| JsonPrint.PrintObject | src/nd_common/src/cJSON.c:443-508 | the text of an object, with its indentation when formatted; every write is within the length summed up first |
| JsonPrint.PrintValue | src/nd_common/src/cJSON.c:303-318 | the text of a value |
| JsonText.LiteralsShown | src/nd_common/src/cJSON.c:303-318 | the texts of null, true, false and the empty array, byte by byte |
| JsonText.ArraysShown | src/nd_common/src/cJSON.c:386-403 | the bytes around and between the items of an array, with a space behind the comma when it is formatted |
| JsonText.ObjectsShown | src/nd_common/src/cJSON.c:485-507 | the bytes around and between the members of an object, with lines and tabs by depth when it is formatted |
| JsonText.MembersShown | src/nd_common/src/cJSON.c:489-495 | the bytes of a member |
| JsonEscapes.PointReadBack | src/nd_common/src/cJSON.c:179-207 | every code point from 1 to 0x10FFFF that is no surrogate, written as one escape or as a surrogate pair with digits of either case, is read as bytes that a decoder of UTF-8 maps back to it |
| JsonEscapes.BodyMeans | src/nd_common/src/cJSON.c:161-207 | every valid string is read character by character as itself, by the table of short escapes, or as the UTF-8 of its code points; only zero and unpaired surrogates write nothing |
| JsonStrings.StringAt | src/nd_common/src/cJSON.c:156-213 | for every valid string, up to its closing quote, the bytes that section 7 of RFC 8259 says it stands for (`JsonEscapes.Means`); for any text, the bytes and the place behind them and the length allocated; where the writing pass is contained, they are written to a buffer of that length |
| JsonStrings.ContainedFits | src/nd_common/src/cJSON.c:161-207 | a string whose writing pass stops no later than its length pass fits in the length allocated |
| JsonStrings.RoomExact | src/nd_common/src/cJSON.c:161-207 | the length allocated is enough whatever follows the quote at which the length pass stopped if and only if the writing pass is contained |
| JsonStrings.ContainedByEscapes | src/nd_common/src/cJSON.c:161-207 | it is contained if and only if no escape has that quote as its letter, among the four digits behind its u, or among those of the second half of a pair |
| JsonStrings.Overrun | src/nd_common/src/cJSON.c:161-207 | a malformed escape before the closing quote for which four bytes are written into room for one |
| JsonStrings.ValidFits | src/nd_common/src/cJSON.c:161-207 | every string that is valid by section 7 of RFC 8259, with any escapes and surrogate pairs, is contained and fits |
| JsonParse.NumberAt | src/nd_common/src/cJSON.c:97-116 | sign, integer part, fraction and exponent, with every multiplication and addition rounded to a double and the library's pow for the powers of ten, and the place behind them |
| JsonParse.ItemsAt | src/nd_common/src/cJSON.c:335-345 | the loop of parse_array builds the list of the items in order |
| JsonParse.MembersAt | src/nd_common/src/cJSON.c:425-439 | the loop of parse_object builds the list of the members in order |
| JsonParse.ParseWithOpts | src/nd_common/src/cJSON.c:265-279 | the value at the start of the text, and failure on a rest that is not blank when the whole text is required |
| JsonGrammar.NumeralSpelled | src/nd_common/src/cJSON.c:97-116 | every number of the grammar of RFC 8259 is read to its end, its digits before and behind the point as one number, scaled by its exponent less the places behind the point |
| JsonGrammar.ValueSpelled | src/nd_common/src/cJSON.c:288-441 | every value that is written by the grammar of RFC 8259, with any white space between its parts, is read as what it stands for, wherever it stands |
| JsonGrammar.TextSpelled | src/nd_common/src/cJSON.c:262-279 | so is a whole text with white space around it; with the option to read the whole text, if and only if nothing or a zero byte comes behind |
| JsonGrammar.InsideMeans | src/nd_common/src/cJSON.c:156-213 | the strings of such a text stand for what section 7 of RFC 8259 says |
| JsonRoundTrip.QuotedBack | src/nd_common/src/cJSON.c:156-249 | a string without zero bytes comes back from its printed text, which is valid by section 7 of RFC 8259, and fits in the length allocated for it |
| JsonNumberRoundTrip.NumberBack | src/nd_common/src/cJSON.c:97-141 | in each of the four formats the text of a number is read through to its end, wherever no character that could continue it follows, and read as its digits gathered in double arithmetic |
| JsonReading.GatheredExact | src/nd_common/src/cJSON.c:101-104 | digits of a number up to 2^53 are gathered exactly |
| JsonReading.WholeBack | src/nd_common/src/cJSON.c:101-111 | a double that is a whole number of magnitude up to 2^55 is read back from its digits if and only if it is not above 2^54, 4 modulo 8 and with last digit 2 or 6 |
| JsonReading.ReadingNear | src/nd_common/src/cJSON.c:101-111 | any number printed as a whole one is read as a finite double that differs from it by at most one part in 2^53 twice for every digit |
| JsonReading.ThreePointThree | src/nd_common/src/cJSON.c:97-141 | the double next to 3.3 is printed as 3.300000, which is another number, and read back as itself where pow gives the double next to 10^-6 |
| JsonRoundTrip.ValueBack | src/nd_common/src/cJSON.c:288-508 | every tree comes back from its text with its numbers as they are read, in both formats and at any depth, wherever the text stands |
| JsonRoundTrip.PrintedIsParsed | src/nd_common/src/cJSON.c:265-508 | the formatted or unformatted text of any tree of null, booleans, finite doubles, strings, arrays and named members is parsed to that tree with its numbers as they are read, with nothing left over; a tree whose numbers are whole and of magnitude up to 2^55 comes back the same if and only if none of them is above 2^54, 4 modulo 8 and with last digit 2 or 6; any other if and only if each of its numbers is read back from its own text |
| JsonRoundTrip.Two63Changes | src/nd_common/src/cJSON.c:97-141 | the double 2^63 is printed exactly and parsed to 2^63 + 2048 |
| JsonRoundTrip.PrintAndParse | src/nd_common/src/cJSON.c:265-508 | printing and then parsing gives the tree with its numbers as they are read, and the same tree under the same conditions |
| RingBuffer.StoredBetween | src/nd_common/src/recbuf.c:95-127 | data stored at the end offset, round the end of the buffer if need be, are appended to the contents |
| RingBuffer.AdvancedBetween | src/nd_common/src/recbuf.c:132-176 | moving the start offset, round the end if need be, drops the front of the contents |
| RingBuffer.Ring.DataLen | src/nd_common/src/recbuf.c:32-41 | the length of the queue |
| RingBuffer.Ring.FreeSpace | src/nd_common/src/recbuf.c:45-55 | free space and queue length are together the capacity less one |
| RingBuffer.Ring.Write | src/nd_common/src/recbuf.c:73-86 | EBUF_SPECIFIED takes all of the data or, when there is no room, refuses and changes nothing; EBUF_ALL takes a first part, all of it unless the ring is then full; what is taken goes to the back of the queue in order |
| RingBuffer.Ring.Read | src/nd_common/src/recbuf.c:58-71 | EBUF_SPECIFIED gives as much as is asked for or refuses and changes nothing; EBUF_ALL gives a first part, all that is asked for unless the ring is then empty; what is given is the front of the queue in order |
| RingBuffer.Fifo | src/nd_common/src/recbuf.c:58-176 | over every run, what was given out followed by what is inside is what was inside at first followed by what was taken in |
| RingBuffer.Run | src/nd_common/src/recbuf.c:58-176 | every run of reads and writes on the ring is that run on a queue of bounded length |
| NodeSlots.StepInv | src/nd_common/src/node_mgr.c:125-169 | every atomic step of every thread keeps the invariant of slots, calls and counter |
| NodeSlots.SafeRuns | src/nd_common/src/node_mgr.c:125-169 | in every interleaving of accepts and matched deaccepts no slot has two holders, a free slot is cleared, no used slot is lost, and the counter is used slots less pending increments plus pending decrements |
| NodeSlots.WinnerFindsCleared | src/nd_common/src/node_mgr.c:140-143 | a compare-and-swap that wins finds neither owner nor address, and nobody else at the slot |
| NodeSlots.IdsReturn | src/nd_common/src/node_mgr.c:145-154 | the 16-bit id of a slot leads back to it and is never 0, when base id and size fit in 16 bits |
| NodeSlots.Quiescent | src/nd_common/src/node_mgr.c:125-169 | when no call is under way the used slots are the held ones and the counter is their number |
| NodeSearch.SearchInOrder | src/nd_common/src/node_mgr.c:134-147 | in every run the slots that an accept has tried are distinct and in cyclic order from the parameter on; as long as it searches each was used when tried, and if it has won, each but the last, which is its slot |
| NodeSearch.FailureExhausts | src/nd_common/src/node_mgr.c:134-149 | an accept that fails has tried every slot of the table and found it used |
| NodeSearch.AcceptAlone | src/nd_common/src/node_mgr.c:125-149 | an accept whose steps no other thread interrupts, from any reachable state, ends with the slots and the counter of `NodeRoot.Accept`, and so takes a slot if and only if one is free |
| NodeSearch.DeacceptAlone | src/nd_common/src/node_mgr.c:152-169 | a deaccept that no other thread interrupts ends with those of `NodeRoot.Deaccept` |
| NodeSearch.EndsAlone | src/nd_common/src/node_mgr.c:125-169 | every call that is left to itself comes to an end |
| NodeTable.NodeRoot.constructor | src/nd_common/src/node_mgr.c:44-67 | a table of cleared slots with the counter at 0, which its calls can take if and only if its ids are above 0 and fit in 16 bits |
| NodeTable.NodeRoot.Accept | src/nd_common/src/node_mgr.c:125-149 | undisturbed, it takes the first free slot in cyclic order from the parameter on, and fails if and only if there is none |
| NodeTable.NodeRoot.Deaccept | src/nd_common/src/node_mgr.c:152-169 | undisturbed, it clears the slot of an id in range and reports any other; the counter stays right if and only if the slot was in use |
| NodeTable.NodeRoot.LockFirst | src/nd_common/src/node_mgr.c:269-294 | the first slot of the caller, with the count of used slots up to it |
| NodeTable.NodeRoot.LockNext | src/nd_common/src/node_mgr.c:305-329 | the next slot of the caller; stopping when as many used slots have been seen as the counter says misses none |
| NodeTable.NodeRoot.Iterate | src/nd_common/src/node_mgr.c:269-329 | the iteration gives the ids of the caller's slots up to the first null address, and so of all of them if and only if none has a null address |
| NodeTable.UpToNullExact | src/nd_common/src/node_mgr.c:269-329 | the slots up to the first null address are a first part of the caller's slots, and all of them if and only if none has a null address |
| NodeTable.AllMineExact | src/nd_common/src/node_mgr.c:269-329 | that sequence is strictly increasing and holds a slot if and only if it is used and owned by the caller |
| NodeTable.QuiescentCount | src/nd_common/src/node_mgr.c:269-329 | in every reachable state without a call under way the counter is what the iteration relies on |
| NodeTable.ValidAtRest | src/nd_common/src/node_mgr.c:125-169 | a table with the slots and the counter of any reachable state without a call under way meets what its calls ask for |

## Left out

- Sockets, sessions, listeners, connectors, SSL, signals, threads, logging, files and the other I/O code.
- The MD5 and MD2 block transforms and the contents of the DES S-box tables (with the permutation P in them): the stream and Feistel laws hold for any.
- Zeroising of local arrays and contexts, and random-byte generation, whose bytes are arbitrary here.
- R_GenerateDHParams, NN_Bits, NN_Assign2Exp, and RSA itself.
- Md5.Context.Update: inputs that with the buffered bytes reach 2^32 bytes are excluded, since the source then reads beyond them (`BlockStreams.CounterExact`).
- Md2.Context.Update: likewise.
- Inputs that overlap their output only in part (CBC updates, digit arrays): the model has the same array or different ones.
- The augmented-tree callbacks of bintree.c (rb_augment_insert, rb_augment_erase_begin, rb_augment_erase_end).
- JsonStrings.StringAt: where the writing pass is not contained, the source can write beyond the length allocated or read past the terminating zero; the model then gives the bytes as a value, as if zeros followed.
- JsonParse.NumberAt: the library's pow is any function that gives 1 for 0; the sign of zero and overflow of the int that counts the exponent are not modelled.
- JsonPrint.PrintNumber: infinities and not-a-numbers, which parsing can give, are not printed in the model; the C library is taken to round decimals to nearest, ties to even, and the decimal point is that of the C locale.
- The linked nodes of cJSON.c are lists as values here (order kept, sharing and deletion not modelled), and memory failure, the error pointer and the editing functions of cJSON.c are not modelled.
- Writing and typed reads of the floats and doubles of the tagged stream; IP addresses, which the source only passes over. Empty texts and binaries are written and skipped, but a read of them reports failure, as in the source.
- ProtoRead.ReadStream.ReadString: the two string reads are one member that differs where they do; likewise ProtoRead.ReadStream.ReadInt for the four integer reads.
- The line buffer of recbuf.c, ndcbuf_sub_data and ndcbuf_add_data.
- Reference counting, owner changes and unmatched deaccepts of node_mgr.c: a reference taken while the slot is being given back breaks the slot invariant, so callers must exclude it.
- NodeTable.NodeRoot.Iterate: only while no other call is under way.
- RedBlackInsert.Insert: the search for the place of the new node is the caller's; the place is given.
