# Verified model of the algorithms in stress-ng and swamd

The repository bundles `stress-ng`, a collection of stress tests for a Linux system, and `swamd`, a daemon
that adds and removes swap files on demand. Most of their code issues system calls. This project models the
part that computes, in Dafny, and proves what it computes:

- `Queens`, `Primes`, `Crc16`, `CrcField`, `CrcPowers`, `CrcDistance`, `CrcFcs`: the bit-parallel n-queens counter, the
  bit-array sieve beside 6k±1 trial division, and the bitwise CCITT CRC16 of the cpu stressor with the errors
  that it detects.
- `Mwc`, `MwcPrimes`, `Periods`, `Hashes`, `HashInverses`, `HashAnswers`, `Checksum`: the multiply-with-carry
  generator and its period, the string and murmur hashes with their inverses, and the IPv4 checksum.
- `HashTable`, `CloneList`, `DeviceTree`, `WarnOnce`: the chained hash table, the list of running clones
  with its free list, the binary search tree of device paths, and the table of warnings already given.
- `Dentry`: Gray-coded file names, created in one order and removed in another.
- `SwapDaemon`, `SwapFiles`, `SwapRuns`: the controller of the swap daemon, the header page of a swap file,
  the bookkeeping of the files in use, and the daemon as a run of the controller.
- `FileNames`: bounded string copying and the names built with it.
- `Words`, `Numbers`, `Orders`, `Sequences`: 32-bit words with the C operators, number theory, and lists of
  nodes, with which the rest is stated.

Code that changes state is a class or a method with loops, and its contract ties the new state to the old
one; what the contracts are stated with are functions and sequences, whose properties are lemmas. What the
system decides (whether `mmap`, `malloc`, `open` or `swapon` succeeds, what a read of `/proc/meminfo` gives)
is a parameter, so every theorem holds for all its answers. Ghost parameters and results only name what the
contracts speak about.

Seven properties that one would expect of the code hold only under a condition. The exact condition is proved
in each case:

- The sieve crosses out multiples of the primes strictly below the integer root of its size, so a prime root
  whose square is below the size leaves a composite marked prime. The size 104730 is not affected
  (`Primes.SieveExactness`, `Primes.SieveSizeIsExact`).
- `shim_strlcpy` returns the length of its source only if the source leaves a byte of the buffer unused;
  otherwise it returns one less (`FileNames.StrlcpyPromise`). `stress_mk_filename` does not use that result,
  and its own reports truncation correctly except for an empty file name (`FileNames.MkPromise`).
- `stress_get_prime64` is described as finding a prime that is not a multiple of its argument. What the
  stride order needs is that the argument is not a multiple of the prime, and this the function ensures only
  for an argument equal to the prime. A removal in stride order misses files exactly if the prime is a proper
  divisor of their number, as 1009 is of 2018; which runs then leave files is proved as well
  (`Dentry.StrideCovers`, `Dentry.Directory.Unlink`, `Dentry.RunLeaves`, `Dentry.TwiceThePrime`).
- `stress_ipv4_checksum` is the Internet checksum up to 65537 words and not for longer data
  (`Checksum.ExactLengths`).
- `swamd` tests against `chunksz + upper`, a sum of two `int`s: a pass may add and remove a file at once
  exactly if that sum does not fit (`SwapDaemon.PassDoesOneThing`). With availability outside the files
  moving in a band, runs never both add and remove exactly if the band is at most `upper - lower + 1` wide
  (`SwapDaemon.Hysteresis`).
- `cleanup` and the removal of a file count a file as gone even if `swapoff` fails: a file is lost exactly
  then (`SwapFiles.Daemon.MainPass`, `SwapFiles.Daemon.Cleanup`).
- `stress_warn_once_hash` promises one answer for each file name and line. It gives one for each hash: with at
  most 128 distinct hashes the promise is kept exactly if no two places share a hash, and for longer runs the
  condition also names the places that found no slot (`WarnOnce.PlacesExact`, `WarnOnce.WarnPlaces`,
  `WarnOnce.OnceFails`).

When the clone call fails, `stress_clone_child` waits for the oldest clone and not for the failed one, whose
control block stays in the list with the pid -1 and is waited for in its turn (`CloneList.OneTurn`).

## Model

| member | source | states |
|---|---|---|
| Queens.SolutionsAre | stress-tool/stress-ng/stress-cpu.c:2915-2918 | the reference set `Solutions(n)` holds exactly the boards with one queen per row and no two attacking each other |
| Queens.FreeColumn | stress-tool/stress-ng/stress-cpu.c:2899 | a queen can be added in a column exactly if none of the three masks covers it |
| Queens.MasksStep | stress-tool/stress-ng/stress-cpu.c:2908-2909 | the masks of the recursive call describe the attacked columns and diagonals of the next row; the bits shifted out stand for no square |
| Queens.FullBoard | stress-tool/stress-ng/stress-cpu.c:2904-2908 | `cols` equals `all` exactly when every row holds a queen, by counting the columns used |
| Queens.FreeMask | stress-tool/stress-ng/stress-cpu.c:2899 | `poss` has exactly the free columns of the board, so no completion starts outside it |
| Queens.CoverStep | stress-tool/stress-ng/stress-cpu.c:2906-2909 | removing one free column from `poss` accounts for exactly the completions that use it, none counted twice |
| Queens.Turn | stress-tool/stress-ng/stress-cpu.c:2901-2910 | `poss & -poss` picks one free column, and one turn of the loop keeps everything that the count rests on |
| Queens.FirstCall | stress-tool/stress-ng/stress-cpu.c:2928 | with zero masks, the call counts all solutions of the board, for every size |
| Queens.QueensTry | stress-tool/stress-ng/stress-cpu.c:2892-2912 | for every size up to 32 and every peaceful partial board, the result is the number of solutions that extend it, modulo 2^32; the recursion ends |
| Queens.CpuQueens | stress-tool/stress-ng/stress-cpu.c:2919-2937 | for the sizes 1 to 11 the results are the numbers of solutions |
| Primes.ClearFlag | stress-tool/stress-ng/stress-ng.h:1838-1842 | clearing a bit of the array changes that flag and no other |
| Primes.MarkingStep | stress-tool/stress-ng/stress-cpu.c:1901-1902 | one turn of the inner loop crosses out exactly the next multiple |
| Primes.SievedIsPrime | stress-tool/stress-ng/stress-cpu.c:1900 | when the outer loop reaches `i`, its flag tells whether `i` is prime |
| Primes.SurvivorIsFalsePrime | stress-tool/stress-ng/stress-cpu.c:1899-1902 | a composite that survives is the square of a prime root, or 6 below 9 |
| Primes.FalsePrimeSurvives | stress-tool/stress-ng/stress-cpu.c:1899-1902 | conversely, each of these composites survives |
| Primes.SieveExactness | stress-tool/stress-ng/stress-cpu.c:1893-1902 | the sieve is right for a size if and only if its integer root is not prime or its square is the size |
| Primes.SieveSizeIsExact | stress-tool/stress-ng/stress-cpu.c:39 | it is right for 104730 |
| Primes.MarkComposites | stress-tool/stress-ng/stress-cpu.c:1898-1902 | after the loops the flags are those of the primes and of the composites above, for every size below 2^32 - 65536; `j` never overflows |
| Primes.CountSieve | stress-tool/stress-ng/stress-cpu.c:1904-1908 | the count is the number of primes below the size plus the number of those composites |
| Primes.SixStep | stress-tool/stress-ng/stress-cpu.c:1931-1933 | testing 6k-1 and 6k+1 rules out six candidate divisors |
| Primes.TrialEnd | stress-tool/stress-ng/stress-cpu.c:1929-1934 | no divisor up to the integer root makes a prime |
| Primes.IsPrime | stress-tool/stress-ng/stress-cpu.c:1919-1935 | the result is 1 exactly for the primes, for every 32-bit argument |
| Primes.CpuPrime | stress-tool/stress-ng/stress-cpu.c:1941-1947 | the count is the number of primes below the size |
| Primes.CompareCounts | stress-tool/stress-ng/stress-cpu.c:1891-1952 | the sieve and trial division count the same exactly for the sizes on which the sieve is right, 104730 among them |
| Crc16.ClockByte | stress-tool/stress-ng/stress-cpu.c:1699-1706 | the inner loop clocks the eight bits of a byte into the register, least significant first |
| Crc16.CcittCrc16 | stress-tool/stress-ng/stress-cpu.c:1678-1711 | the loop computes the CRC of the message as the lemmas below describe it |
| Crc16.StepLinear | stress-tool/stress-ng/stress-cpu.c:1703-1705 | a register step is linear over GF(2) in register and input bit |
| Crc16.StepInjective | stress-tool/stress-ng/stress-cpu.c:1703-1705 | for a given input bit it is invertible |
| Crc16.RunLinear | stress-tool/stress-ng/stress-cpu.c:1698-1707 | so is the whole run linear |
| Crc16.RunInjective | stress-tool/stress-ng/stress-cpu.c:1698-1707 | different registers stay different whatever bits follow |
| Crc16.Absorb | stress-tool/stress-ng/stress-cpu.c:1698-1707 | up to 16 bits clocked in one by one act like their sum with the register, clocked with zeros |
| Crc16.WindowInjective | stress-tool/stress-ng/stress-cpu.c:1698-1707 | two different windows of at most 16 bits lead to different registers |
| Crc16.MessageDetermined | stress-tool/stress-ng/stress-cpu.c:1700-1702 | the bits of a message determine its bytes |
| Crc16.BurstRun | stress-tool/stress-ng/stress-cpu.c:1698-1707 | a difference within 16 bits is never lost by the end of the run |
| Crc16.BurstDetected | stress-tool/stress-ng/stress-cpu.c:1678-1711 | every error burst of at most 16 bits is detected, for every length and position |
| Crc16.GeneratorUndetected | stress-tool/stress-ng/stress-cpu.c:1678-1711 | the bound is sharp: the 17-bit burst that is the generator is missed everywhere |
| Crc16.StepParity | stress-tool/stress-ng/stress-cpu.c:1703-1705 | a step flips the parity of the register exactly if a one enters |
| Crc16.OddErrorsDetected | stress-tool/stress-ng/stress-cpu.c:1678-1711 | every odd number of wrong bits is detected |
| Crc16.CheckBytes | stress-tool/stress-ng/stress-cpu.c:1709-1710 | the complemented and swapped result is the one pair of bytes that brings the register to all ones |
| Crc16.GoodFcs | stress-tool/stress-ng/stress-cpu.c:1692-1710 | appending two bytes gives the CRC 0x470f (register 0xf0b8, Appendix C.2 of RFC 1662) if and only if they are the CRC of the message, high byte first |
| Crc16.DivisionStep | stress-tool/stress-ng/stress-cpu.c:1703-1705 | a register step is one step of long division by x^16 + x^12 + x^5 + 1 |
| Crc16.RegisterIsRemainder | stress-tool/stress-ng/stress-cpu.c:1680-1707 | the register is the remainder of the message polynomial, as the comment on the polynomial says |
| Crc16.CrcIs | stress-tool/stress-ng/stress-cpu.c:1693-1710 | the early return for an empty message agrees with the loop |
| CrcFcs.BitOrder | stress-tool/stress-ng/stress-cpu.c:1700-1702 | each byte enters the register with its bits 0x01, 0x02 up to 0x80 in this order |
| CrcFcs.FrameCheckSequence | stress-tool/stress-ng/stress-cpu.c:1678-1711 | the bytes of the result, complemented, are the remainder of the message times x^16 with its 16 leading coefficients complemented, the frame check sequence of Appendix C of RFC 1662 |
| CrcFcs.ResultDetermined | stress-tool/stress-ng/stress-cpu.c:1678-1711 | and no other result has that remainder |
| CrcFcs.LeadingZeros | stress-tool/stress-ng/stress-cpu.c:1693 | zero bytes in front of a message go unnoticed if and only if their number is a multiple of 32767 |
| CrcFcs.OneZeroByte | stress-tool/stress-ng/stress-cpu.c:1693 | so one zero byte in front always changes the result |
| CrcFcs.ZeroByteAnswer | stress-tool/stress-ng/stress-cpu.c:1692-1710 | the CRC of a zero byte is 0x78f0 |
| CrcField.PowerProduct | stress-tool/stress-ng/stress-cpu.c:1703-1705 | steps without input multiply the register, read as a polynomial, by x modulo the generator; powers of x multiply accordingly |
| CrcDistance.OrderOfX | stress-tool/stress-ng/stress-cpu.c:1680-1692 | the order of x modulo the generator is exactly 32767 |
| CrcDistance.TwoErrorsExact | stress-tool/stress-ng/stress-cpu.c:1678-1711 | two wrong bits are missed if and only if their distance is a multiple of 32767, for every length and position |
| CrcDistance.SmallErrorsDetected | stress-tool/stress-ng/stress-cpu.c:1678-1711 | in messages of up to 32767 bits every error of one, two or three bits is detected |
| CrcDistance.FrameErrorsDetected | stress-tool/stress-ng/stress-cpu.c:1678-1711 | a message with its check bytes never gives the good constant again after such an error or a burst of 16 bits, the check bytes included |
| Mwc.HalfFits | stress-tool/stress-ng/core-mwc.c:148-149 | no product or sum of a half overflows 32 bits |
| Mwc.StepIsMultiplication | stress-tool/stress-ng/core-mwc.c:148-149 | a half multiplies by the inverse of 2^16 modulo m = a * 2^16 - 1 |
| Mwc.RunIsLehmer | stress-tool/stress-ng/core-mwc.c:146-151 | after n calls a half holds a^n times its seed modulo m |
| Mwc.StepIsBijection | stress-tool/stress-ng/core-mwc.c:148-149 | on [0, m] the step is a bijection, with a digit swap as inverse |
| Mwc.TwoStepsSettle | stress-tool/stress-ng/core-mwc.c:148-149 | within two steps of any seed the state lies in [0, m] |
| Mwc.RunStaysSettled | stress-tool/stress-ng/core-mwc.c:146-151 | and it stays there in every run |
| Mwc.FixedPoints | stress-tool/stress-ng/core-mwc.c:148-149 | 0 and m are fixed points |
| Mwc.ZeroClass | stress-tool/stress-ng/core-mwc.c:148-149 | a step keeps being a multiple of m, in both directions |
| Mwc.FixedPointsAvoided | stress-tool/stress-ng/core-mwc.c:146-151 | a run reaches the class of the fixed points exactly if its seed is a multiple of m |
| Orders.OrderIs | stress-tool/stress-ng/core-mwc.c:148-149 | an element other than 1 whose q-th power is 1, for a prime q, has order q |
| Orders.PrimeFromOrder | stress-tool/stress-ng/core-mwc.c:148-149 | a number with an element of large enough prime order is prime, since the powers of the element are different |
| MwcPrimes.ModulusZ | stress-tool/stress-ng/core-mwc.c:148 | 36969 * 2^16 - 1 is prime |
| MwcPrimes.PeriodZ | stress-tool/stress-ng/core-mwc.c:148 | 36969 * 2^15 - 1 is prime |
| MwcPrimes.ModulusW | stress-tool/stress-ng/core-mwc.c:149 | 18000 * 2^16 - 1 is prime |
| MwcPrimes.PeriodW | stress-tool/stress-ng/core-mwc.c:149 | 18000 * 2^15 - 1 is prime |
| Periods.Cycle | stress-tool/stress-ng/core-mwc.c:146-151 | a state of a half that is not a multiple of m comes back after n calls if and only if (m - 1) / 2 divides n |
| Periods.Recurrence | stress-tool/stress-ng/core-mwc.c:146-151 | for every seed that is not a multiple of m, which states are equal from the second on: those whose distance (m - 1) / 2 divides |
| Periods.Stuck | stress-tool/stress-ng/core-mwc.c:146-151 | with any other seed a half stands still from the second state on |
| Periods.GeneratorPeriod | stress-tool/stress-ng/core-mwc.c:146-151 | the generator repeats a state exactly after multiples of 1211400191 * 589823999 calls, about 2^59 |
| Periods.DefaultPeriod | stress-tool/stress-ng/core-mwc.c:27-30 | that holds of the default seeds from the first state on |
| Mwc.DrawsRejoin | stress-tool/stress-ng/core-mwc.c:166-214 | the 2, 4 or 32 narrow draws of a word are all its bits |
| Mwc.Generator.constructor | stress-tool/stress-ng/core-mwc.c:27-32 | the initial seeds and empty reservoirs |
| Mwc.Generator.Seed | stress-tool/stress-ng/core-mwc.c:132-138 | sets both halves and empties every reservoir |
| Mwc.Generator.Mwc32 | stress-tool/stress-ng/core-mwc.c:146-151 | steps both halves; the low half of the word is that of `w`, the high half is the low half of `z` plus the high half of `w` |
| Mwc.OutputsAgree | stress-tool/stress-ng/core-mwc.c:150 | with the same `w` two words are equal if and only if the low halves of `z` are |
| Mwc.WordHalves | stress-tool/stress-ng/core-mwc.c:146-151 | in every run the halves of the words are made so from the two Lehmer sequences |
| Mwc.FirstWord | stress-tool/stress-ng/core-mwc.c:27-30 | the first word from the default seeds is 820856226 |
| Mwc.Generator.Mwc16 | stress-tool/stress-ng/core-mwc.c:166-178 | delivers the next left-over half word, or the first of a new word |
| Mwc.Generator.Mwc8 | stress-tool/stress-ng/core-mwc.c:184-196 | delivers the next left-over byte, or the first of a new word |
| Mwc.Generator.Mwc1 | stress-tool/stress-ng/core-mwc.c:202-214 | delivers the next left-over bit, or the first of a new word |
| Mwc.Generator.Draws | stress-tool/stress-ng/core-mwc.c:132-214 | over any run of draws of the three widths in any order, the draws of each width, with what is left over, are exactly the words made for that width, and the words alternate as the draws demand: nothing skipped or repeated |
| Mwc.OneWidth | stress-tool/stress-ng/core-mwc.c:166-214 | n draws of one width make n words divided by the draws in a word, rounded up |
| Hashes.JenkinRoundInjective | stress-tool/stress-ng/core-hash.c:38-40 | a jenkin round is injective in accumulator and byte |
| Hashes.JenkinFinishInjective | stress-tool/stress-ng/core-hash.c:42-44 | the final mixing is injective |
| Hashes.Djb2aRoundInjective | stress-tool/stress-ng/core-hash.c:81 | a djb2a round is injective in accumulator and character |
| Hashes.Fnv1aRoundInjective | stress-tool/stress-ng/core-hash.c:97-98 | an FNV-1a round is injective in accumulator and character |
| Hashes.SdbmRoundInjective | stress-tool/stress-ng/core-hash.c:114 | an sdbm round is injective in accumulator and character |
| Hashes.PjwRoundBound | stress-tool/stress-ng/core-hash.c:60-64 | folding clears the top four digits, so the shift of the next round loses none |
| Hashes.PjwBound | stress-tool/stress-ng/core-hash.c:53-68 | every pjw hash is below 2^28 |
| Hashes.FoldTellsApart | stress-tool/stress-ng/core-hash.c:32-116 | a fold of such rounds tells apart keys that differ in one place, wherever it is |
| Hashes.OneByteTellsApart | stress-tool/stress-ng/core-hash.c:32-116 | two strings of one length that differ in one byte have different jenkin, djb2a, fnv1a and sdbm hashes |
| Hashes.ScrambleInjective | stress-tool/stress-ng/core-hash.c:149-155 | the murmur scramble is injective |
| Hashes.MurmurRoundInjective | stress-tool/stress-ng/core-hash.c:175-177 | a murmur round is injective in accumulator and block |
| Hashes.MurmurFinishInjective | stress-tool/stress-ng/core-hash.c:185-191 | the finalisation is injective in accumulator and tail |
| Hashes.BlockTellsApart | stress-tool/stress-ng/core-hash.c:163-194 | keys that differ only within one aligned block have different murmur hashes, for every seed |
| Hashes.TailTellsApart | stress-tool/stress-ng/core-hash.c:163-194 | so do keys that differ only in the tail |
| HashInverses.Djb2aExact | stress-tool/stress-ng/core-hash.c:74-84 | a string has the djb2a hash r if and only if dividing by 33 backwards along it leads from r to 5381 |
| HashInverses.Fnv1aExact | stress-tool/stress-ng/core-hash.c:90-101 | the same for FNV-1a with the inverse of its prime |
| HashInverses.JenkinExact | stress-tool/stress-ng/core-hash.c:32-47 | a key has the jenkin hash r if and only if undoing the final mixing and the rounds leads from r to 0 |
| HashInverses.SdbmExact | stress-tool/stress-ng/core-hash.c:108-116 | the sdbm hash is the value of the characters as digits in base 65599, modulo 2^32 |
| HashInverses.PjwRoundIs | stress-tool/stress-ng/core-hash.c:60-64 | a pjw round shifts in a character and adds the four digits shifted out to digits 4 to 7 without carry |
| HashInverses.ScrambleExact | stress-tool/stress-ng/core-hash.c:149-155 | the scramble has the value v exactly for the word that the inverse multipliers and the opposite rotation give |
| HashInverses.MurmurExact | stress-tool/stress-ng/core-hash.c:163-194 | a key has the murmur hash r from a seed if and only if undoing the finalisation and the rounds leads from r to the seed |
| HashInverses.MurmurBijective | stress-tool/stress-ng/core-hash.c:163-194 | for every key the hash is a bijection of the seeds |
| HashInverses.LoadsAre | stress-tool/stress-ng/core-hash.c:173-184 | blocks and tails are little-endian numbers |
| HashInverses.CharWordIs | stress-tool/stress-ng/core-hash.c:60-114 | a character counts with the value of its C type modulo 2^32 |
| HashAnswers.MurmurEmpty | stress-tool/stress-ng/core-hash.c:163-194 | the murmur hash of the empty key from the seed 1 is 0x514e28b7 |
| HashAnswers.MurmurHello | stress-tool/stress-ng/core-hash.c:163-194 | that of "hello", a block and a tail, from the seed 0 is 0x248bfa47 |
| Hashes.HashJenkin | stress-tool/stress-ng/core-hash.c:32-47 | the loop computes the fold of the jenkin rounds |
| Hashes.HashPjw | stress-tool/stress-ng/core-hash.c:53-68 | the loop computes the fold of the pjw rounds |
| Hashes.HashDjb2a | stress-tool/stress-ng/core-hash.c:74-84 | the loop computes the fold of the djb2a rounds |
| Hashes.HashFnv1a | stress-tool/stress-ng/core-hash.c:90-101 | the loop computes the fold of the FNV-1a rounds |
| Hashes.HashSdbm | stress-tool/stress-ng/core-hash.c:108-116 | the loop computes the fold of the sdbm rounds |
| Hashes.HashMurmur3 | stress-tool/stress-ng/core-hash.c:163-194 | the loops compute the fold over the blocks, then the tail and the finalisation |
| Hashes.TailLoop | stress-tool/stress-ng/core-hash.c:180-184 | the backward loop packs the tail, its first byte lowest |
| HashTable.Create | stress-tool/stress-ng/core-hash.c:200-219 | fails exactly for no buckets or no memory, and otherwise gives an empty table |
| HashTable.Find | stress-tool/stress-ng/core-hash.c:223-231 | finds the node of the string in a chain, if there is one |
| HashTable.BucketIs | stress-tool/stress-ng/core-hash.c:268 | the bucket is the value of the characters in base 65599, modulo 2^32 and the number of buckets |
| HashTable.Table.AtMeaning | stress-tool/stress-ng/core-hash.c:238-249 | the map from strings to nodes is defined exactly on the strings in the table, each held by one node |
| HashTable.Table.Get | stress-tool/stress-ng/core-hash.c:238-249 | the lookup is that map |
| HashTable.Table.Add | stress-tool/stress-ng/core-hash.c:257-284 | re-adding returns the same node and changes nothing; otherwise one node is added, and every other lookup is unchanged |
| HashTable.Table.Delete | stress-tool/stress-ng/core-hash.c:290-309 | frees every node of the table once, and reads none after it was freed |
| Sequences.InTurnSafe | stress-tool/stress-ng/core-hash.c:300-305 | reading and releasing the nodes of a list in turn is safe if and only if no node occurs twice |
| HashTable.Apply | stress-tool/stress-ng/core-hash.c:238-284 | an operation keeps the table equal to the set of strings added so far, and no node ever moves |
| HashTable.RunOps | stress-tool/stress-ng/core-hash.c:200-284 | over any run, an operation returns a node exactly if its string was added by then, and always the same node for a string |
| CloneList.Clones.New | stress-tool/stress-ng/stress-clone.c:175-200 | takes the first free node, or else a new one, and appends it; head, tail and length stay right |
| CloneList.Clones.HeadRemove | stress-tool/stress-ng/stress-clone.c:207-228 | waits for the first clone and moves its node to the free list |
| CloneList.Clones.Free | stress-tool/stress-ng/stress-clone.c:234-248 | unmaps the nodes of both lists, each once and in its order, and reads none after it was unmapped |
| CloneList.Reap | stress-tool/stress-ng/stress-clone.c:416 | the oldest clone is waited for and its node becomes spare; no node is dropped |
| CloneList.OneTurn | stress-tool/stress-ng/stress-clone.c:354-417 | one turn is exactly one step of a queue of pids: below the limit a clone is started, after a failed call the oldest one is reaped and not the failed one, at the limit the oldest one is reaped; the loop stops exactly if a node is needed, none is spare and mmap fails; a node is mapped only if none is spare |
| CloneList.RunAccounts | stress-tool/stress-ng/stress-clone.c:354-417 | in every run the clones waited for and those active are together all clone calls made, in order |
| CloneList.RunNodes | stress-tool/stress-ng/stress-clone.c:179-189 | the nodes mapped are as many as were ever in use at once |
| CloneList.PeakBound | stress-tool/stress-ng/stress-clone.c:355 | which is at most `clone_max` |
| CloneList.SteadyRun | stress-tool/stress-ng/stress-clone.c:354-417 | if all calls succeed, the number of clones started is known from the number of turns: the list fills, and then every other turn starts one |
| CloneList.LengthLaw | stress-tool/stress-ng/stress-clone.c:354-417 | in every run the list grows by the successful calls and shrinks by the turns without a call; a failed call leaves its length |
| CloneList.LevelIs | stress-tool/stress-ng/stress-clone.c:354-417 | with memory its length is a counter that goes up to the limit, stays on a failure, and goes down at the limit |
| CloneList.CallsMade | stress-tool/stress-ng/stress-clone.c:354-417 | so the number of clone calls follows from the turns and the failures |
| CloneList.AllFail | stress-tool/stress-ng/stress-clone.c:403-410 | if every clone call fails, every turn makes a call and one node serves the whole run |
| CloneList.EnoughNodes | stress-tool/stress-ng/stress-clone.c:179-189 | once `clone_max` nodes are mapped no run stops, whatever mmap would answer |
| CloneList.StopsAt | stress-tool/stress-ng/stress-clone.c:363-365 | a run ends early only in a turn in which mmap fails |
| CloneList.ControlLoop | stress-tool/stress-ng/stress-clone.c:354-417 | the loop is a run of the queue, for any answers of the system |
| CloneList.Drain | stress-tool/stress-ng/stress-clone.c:422-424 | all clones still active are waited for, in order, and every node becomes spare |
| CloneList.Child | stress-tool/stress-ng/stress-clone.c:354-426 | the pids waited for are exactly the clone calls that the turns lead to, in order; as many nodes are mapped as clones were ever active at once, and each is unmapped once |
| DeviceTree.LessTrichotomy | stress-tool/stress-ng/stress-bad-ioctl.c:72-76 | the order of strcmp is total and strict |
| DeviceTree.LessTransitive | stress-tool/stress-ng/stress-bad-ioctl.c:72-76 | and transitive |
| DeviceTree.LessMeaning | stress-tool/stress-ng/stress-bad-ioctl.c:72 | it is decided by the first difference, a prefix being the smaller path |
| DeviceTree.SearchFinds | stress-tool/stress-ng/stress-bad-ioctl.c:71-77 | in a search tree the descent finds a path exactly if it is in the tree |
| DeviceTree.InsertMembers | stress-tool/stress-ng/stress-bad-ioctl.c:71-88 | inserting adds the new path and node and nothing else |
| DeviceTree.InsertSorted | stress-tool/stress-ng/stress-bad-ioctl.c:71-88 | inserting keeps the order of a search tree |
| DeviceTree.Grafted | stress-tool/stress-ng/stress-bad-ioctl.c:87 | storing the node through the address of the last link changes the linked nodes to the inserted tree |
| DeviceTree.Devices.New | stress-tool/stress-ng/stress-bad-ioctl.c:65-89 | a repeated path returns its node and changes nothing, a new one is added, and the tree stays a search tree |
| DeviceTree.WalkFrom | stress-tool/stress-ng/stress-bad-ioctl.c:381-402 | the walk visits the paths in order |
| DeviceTree.Devices.Walk | stress-tool/stress-ng/stress-bad-ioctl.c:375-403 | so they come in strictly increasing order |
| DeviceTree.InsertAndWalk | stress-tool/stress-ng/stress-bad-ioctl.c:65-403 | after any sequence of insertions the walk visits exactly the distinct paths that found memory, each once, in increasing order |
| DeviceTree.FreeIsSafe | stress-tool/stress-ng/stress-bad-ioctl.c:95-103 | the recursive free reads no node after releasing it, and releases none twice |
| DeviceTree.ReleasedPostOrder | stress-tool/stress-ng/stress-bad-ioctl.c:95-103 | the releases in that order of accesses are the post-order |
| DeviceTree.DevFree | stress-tool/stress-ng/stress-bad-ioctl.c:95-103 | frees the nodes in post-order, each once, with that order of reads and releases |
| DeviceTree.PostOrderOnce | stress-tool/stress-ng/stress-bad-ioctl.c:95-103 | in which every node of the tree occurs exactly once |
| WarnOnce.RingCovers | stress-tool/stress-ng/core-helper.c:2109-2120 | the scan reaches every slot wherever it starts |
| WarnOnce.AdjustedApart | stress-tool/stress-ng/core-helper.c:2106-2107 | the adjustment confuses only the hashes 0 and 128 |
| WarnOnce.LinesApart | stress-tool/stress-ng/core-helper.c:2089 | two lines of one file never share a hash, unless 2^32 apart |
| WarnOnce.Table.Warn | stress-tool/stress-ng/core-helper.c:2100-2129 | true exactly if the adjusted hash is not stored; it is then stored unless the table is full; stored hashes stay distinct and keep their slots, so a full table does not change |
| WarnOnce.Table.FullCount | stress-tool/stress-ng/core-helper.c:2121 | the table is full if and only if it holds as many hashes as it has slots |
| WarnOnce.Table.WarnOnce | stress-tool/stress-ng/core-helper.c:2087-2130 | the same with the hash computed from file name and line |
| WarnOnce.KeptCount | stress-tool/stress-ng/core-helper.c:2109-2123 | up to 128 distinct hashes all are kept, and never more than that |
| WarnOnce.KeptMeaning | stress-tool/stress-ng/core-helper.c:2109-2123 | the hashes kept are the first 128 distinct ones |
| WarnOnce.WarnAll | stress-tool/stress-ng/core-helper.c:2087-2130 | over any calls the answer is true exactly if the hash is not among the first 128 distinct ones of the earlier calls; with at most 128 distinct hashes that is the first call for each |
| WarnOnce.PlacesExact | stress-tool/stress-ng/core-helper.c:2080-2130 | every file and line gets its one answer if and only if no two different places share a hash that found a slot and no place whose hash found none is called again |
| WarnOnce.FaultlessWithinCapacity | stress-tool/stress-ng/core-helper.c:2080-2130 | with at most 128 distinct hashes that is: if and only if no two different places share a hash |
| WarnOnce.WarnPlaces | stress-tool/stress-ng/core-helper.c:2080-2130 | both conditions, for every run of calls |
| WarnOnce.PlacesCollide | stress-tool/stress-ng/core-helper.c:2089 | line 2 of a file "a" and line 1 of a file "b" share a hash |
| WarnOnce.OnceFails | stress-tool/stress-ng/core-helper.c:2080-2083 | so of calls from these two places the second is answered wrongly |
| Dentry.GrayInjective | stress-tool/stress-ng/stress-dentry.c:308 | the Gray code is injective |
| Dentry.GrayNeighbours | stress-tool/stress-ng/stress-dentry.c:308 | the codes of neighbours differ in exactly one binary digit |
| Dentry.GrayReflected | stress-tool/stress-ng/stress-dentry.c:308 | the code is reflected: the second half of the codes of w + 1 digits is the first half backwards with the top digit set |
| Dentry.GrayPermutes | stress-tool/stress-ng/stress-dentry.c:308 | the codes of all numbers of w digits are all numbers of w digits |
| Dentry.NameIsCode | stress-tool/stress-ng/stress-dentry.c:275-277 | the numbers in the names are even, and half of each is the code |
| Dentry.NameInjective | stress-tool/stress-ng/stress-dentry.c:314-315 | so are the numbers in the names |
| Dentry.StrideCovers | stress-tool/stress-ng/stress-dentry.c:121-124 | n strides of a prime visit every entry if and only if the prime does not divide n |
| Dentry.StrideNamesMultiples | stress-tool/stress-ng/stress-dentry.c:121-128 | if it does, they visit exactly the multiples of the prime |
| Dentry.VisitsStride | stress-tool/stress-ng/stress-dentry.c:121-123 | the visits start at the prime, go on in strides of it, and end at entry 0 |
| Dentry.SuccessorAvoids | stress-tool/stress-ng/core-helper.c:1339-1348 | the prime that follows a prime n does not divide n, wrap-around included |
| Dentry.PositionFits | stress-tool/stress-ng/stress-dentry.c:121 | the running sum of the stride does not overflow |
| Dentry.StressIsPrime64 | stress-tool/stress-ng/core-helper.c:1313-1328 | decides primality |
| Dentry.Prime1009 | stress-tool/stress-ng/core-helper.c:1337 | the initial stride is prime |
| Dentry.WrappedSearch | stress-tool/stress-ng/core-helper.c:1343-1348 | if no larger prime fits the variable, the search wraps around and ends at 3 |
| Dentry.Stride.GetPrime64 | stress-tool/stress-ng/core-helper.c:1335-1349 | the static stays prime, changes only when it equals the argument, and then becomes the next larger 32-bit prime, or 3 if there is none; the search ends |
| Dentry.Directory.constructor | stress-tool/stress-ng/core-helper.c:1337 | an empty directory and the stride 1009 |
| Dentry.Directory.Create | stress-tool/stress-ng/stress-dentry.c:307-329 | creates the first n names, n being where open first fails |
| Dentry.Directory.UnlinkReverse | stress-tool/stress-ng/stress-dentry.c:106-118 | removes exactly the first n names, the last one first |
| Dentry.Directory.UnlinkForward | stress-tool/stress-ng/stress-dentry.c:131-141 | removes exactly the first n names, the first one first |
| Dentry.Directory.UnlinkStride | stress-tool/stress-ng/stress-dentry.c:119-130 | removes exactly the names that the strides visit, in the order of the visits |
| Dentry.OrderChoice | stress-tool/stress-ng/stress-dentry.c:102-103 | a random order is one of the three, each of which can come up |
| Dentry.CallsRemove | stress-tool/stress-ng/stress-dentry.c:95-143 | in every order the names unlinked are those taken away |
| Dentry.Directory.Unlink | stress-tool/stress-ng/stress-dentry.c:95-143 | every order removes exactly the first n names, except that the stride order removes only the multiples of the prime it finds if that is a proper divisor of n; so n equal to the prime is safe |
| Dentry.Directory.Round | stress-tool/stress-ng/stress-dentry.c:303-362 | the files and the prime after a round, for every start; from an empty directory it ends with an empty one if and only if not in that case, judged by the prime before the round |
| Dentry.Directory.Stress | stress-tool/stress-ng/stress-dentry.c:303-375 | the files and the prime after any run, rounds cut short and an abandoned last round included; and exactly which runs without failing creations leave files |
| Dentry.RunCleans | stress-tool/stress-ng/stress-dentry.c:369-375 | no run leaves another name, and none leaves any if its final removal misses none |
| Dentry.RoundsPrime | stress-tool/stress-ng/core-helper.c:1339-1348 | in complete rounds the prime moves on only from `dentries` itself |
| Dentry.RunLeaves | stress-tool/stress-ng/stress-dentry.c:303-375 | if no creation fails, files are left if and only if the prime properly divided `dentries` from the start, the final removal is in stride order, and the last round was in stride order too or was abandoned with two files or more |
| Dentry.TwiceThePrime | stress-tool/stress-ng/stress-dentry.c:119-130 | 2018 files, twice the initial prime, are such a case |
| Checksum.Ipv4Checksum | stress-tool/stress-ng/core-helper.c:2136-2152 | up to 131074 bytes, odd lengths included, the result is the Internet checksum of sections 1 and 2 of RFC 1071 |
| Checksum.OnesSumIsSum | stress-tool/stress-ng/core-helper.c:2141-2147 | addition with end-around carry is addition modulo 65535 |
| Checksum.TwoFolds | stress-tool/stress-ng/core-helper.c:2148-2149 | two folds reduce any 32-bit sum completely |
| Checksum.FoldingIsExact | stress-tool/stress-ng/core-helper.c:2141-2151 | up to 65537 words the sum does not overflow and folding is exact |
| Checksum.ExactLengths | stress-tool/stress-ng/core-helper.c:2138-2151 | the code is right on all data of a length if and only if that is at most 65537 words |
| Checksum.OrderIndependent | stress-tool/stress-ng/core-helper.c:2141-2151 | the order of the words is irrelevant |
| Checksum.ByteOrderIndependent | stress-tool/stress-ng/core-helper.c:2141-2151 | swapping the bytes of all words swaps those of the checksum |
| Checksum.NetworkOrder | stress-tool/stress-ng/core-helper.c:2136-2152 | the result as it lies in memory is the Internet checksum of the data in network order, a last odd byte padded with zero |
| Checksum.AppendedChecksum | stress-tool/stress-ng/core-helper.c:2141-2151 | an appended word gives checksum 0 if and only if it is the checksum, up to the two zeros of one's complement |
| Checksum.SelfCheck | stress-tool/stress-ng/core-helper.c:2136-2152 | appending the result to data of even length gives 0 |
| Checksum.OneWordChange | stress-tool/stress-ng/core-helper.c:2141-2151 | a change of one word is noticed unless it exchanges the two zeros |
| SwapDaemon.PassDoesOneThing | adaptive-swapd/swamd.c:282-288 | no pass adds and removes, whatever it reads, if and only if `chunksz + upper` fits an int |
| SwapDaemon.NoRemoveAfterAdd | adaptive-swapd/swamd.c:279-290 | after an addition no run removes a file |
| SwapDaemon.NoAddAfterRemove | adaptive-swapd/swamd.c:279-290 | after a removal no run adds one, even if swapoff failed |
| SwapDaemon.NeverBoth | adaptive-swapd/swamd.c:279-290 | no run with outside memory in the band does both |
| SwapDaemon.Hysteresis | adaptive-swapd/swamd.c:279-290 | the controller is free of oscillation if and only if the band is at most `upper - lower + 1` wide |
| SwapDaemon.ConstantOutside | adaptive-swapd/swamd.c:279-290 | with constant outside memory no run both adds and removes files |
| SwapFiles.HeaderUnique | adaptive-swapd/swamd.c:434-441 | the number of pages determines the whole header page |
| SwapFiles.SignatureSpelled | adaptive-swapd/swamd.c:435 | the signature is "SWAP-SPACE" |
| SwapFiles.BitmapBit | adaptive-swapd/swamd.c:438-441 | the fill and the two masks set exactly the bits 1 up to the number of pages |
| SwapFiles.BuildHeader | adaptive-swapd/swamd.c:434-441 | for every accepted size, and whatever an earlier call left in the static page, the page becomes the header, its signature intact |
| SwapFiles.ZeroPage | adaptive-swapd/swamd.c:452 | clears the page |
| SwapFiles.Daemon.WritePages | adaptive-swapd/swamd.c:434-453 | the pages written are the header and then zero pages, and the static page is fit for the next call even after a failed write |
| SwapFiles.Daemon.AddSwap | adaptive-swapd/swamd.c:407-474 | a file comes into use exactly if every step succeeds, with all its pages written; the other failures add nothing, and the two fatal ones end the daemon, with exactly the files in use whose swapoff failed or that were lost before |
| SwapFiles.Daemon.DelSwap | adaptive-swapd/swamd.c:479-492 | the file leaves use exactly if swapoff succeeds |
| SwapFiles.Daemon.Cleanup | adaptive-swapd/swamd.c:68-73 | all files are gone if and only if every swapoff succeeds and none was lost before |
| SwapFiles.Daemon.RemoveLast | adaptive-swapd/swamd.c:287 | the last file is no longer counted, and is lost exactly if its swapoff fails |
| SwapFiles.Daemon.AddLast | adaptive-swapd/swamd.c:282-285 | the new file is counted exactly if it comes into use |
| SwapFiles.Daemon.MainPass | adaptive-swapd/swamd.c:279-290 | one pass keeps `chunks` between 0 and `numchunks` and the counted files distinct and in use, determines which files are counted and in use afterwards, also when it gives up, and loses a file exactly when its swapoff fails |
| SwapRuns.FollowPass | adaptive-swapd/swamd.c:279-290 | a pass of the daemon whose reading is the memory outside plus what the files in use add takes the controller model to its next state, lost files included |
| SwapRuns.RunDaemon | adaptive-swapd/swamd.c:279-290 | over any run whose readings are the memory available, the numbers of files that the daemon object counts are those of the controller, and it ends holding the files of the controller state, lost files apart; so within the band of the hysteresis the numbers only grow or only shrink; the daemon gives up exactly in the first pass in which it needs a file and a fatal call fails |
| SwapRuns.OneWay | adaptive-swapd/swamd.c:282-288 | without removals the number of files never falls, without additions it never rises |
| SwapRuns.AlwaysLow | adaptive-swapd/swamd.c:282-285 | while memory is low and additions succeed, k passes leave k files, up to `numchunks` |
| SwapRuns.AlwaysHigh | adaptive-swapd/swamd.c:286-288 | while it is high, each pass drops a file, down to none |
| FileNames.StrlcpyPromise | stress-tool/stress-ng/core-shim.c:1026-1033 | the result is the length of the source if and only if a byte of the buffer is left over, and one less otherwise |
| FileNames.Strlcpy | stress-tool/stress-ng/core-shim.c:1012-1033 | copies the first len - 1 characters, terminates, writes nothing else |
| FileNames.Strlcat | stress-tool/stress-ng/core-shim.c:1047-1072 | appends what fits, terminates, returns the length of the whole; an unterminated destination is left alone |
| FileNames.MkFilename | stress-tool/stress-ng/core-helper.c:233-247 | one truncation of path, slash and file name, terminated, nothing written past the buffer |
| FileNames.MkPromise | stress-tool/stress-ng/core-helper.c:233-247 | the result is below the buffer length if and only if nothing was cut or the file name is empty; it is the full length if and only if path and slash fit |
| FileNames.EncodeRoundTrip | stress-tool/stress-ng/core-helper.c:790-797 | decoding the digits gives the value back |
| FileNames.DigitsSpelled | stress-tool/stress-ng/core-helper.c:790 | the digits are a to z and 0 to 9 |
| FileNames.EncodeInjective | stress-tool/stress-ng/core-helper.c:785-786 | distinct values get distinct names |
| FileNames.ThirteenDigits | stress-tool/stress-ng/core-helper.c:785-788 | 64-bit values need at most 13 digits |
| FileNames.Base36Encode | stress-tool/stress-ng/core-helper.c:788-799 | the buffer of 14 holds the digits and the terminator, and nothing is written past it |
| FileNames.TempHashTruncate | stress-tool/stress-ng/core-helper.c:807-829 | a name that is too long is replaced by its hash in base 36, a shorter one is kept |
| FileNames.NameHashHalves | stress-tool/stress-ng/core-helper.c:823-825 | the jenkin hash is the upper half of the number, the pjw hash of 28 bits the lower one |
| FileNames.TruncationTellsApart | stress-tool/stress-ng/core-helper.c:819-828 | two overlong names of one length that differ in one character stay different |

## Left out

- System calls, signals, threads, spin locks, logging, option parsing, and the parsing of `/proc/meminfo`: their outcomes are parameters where an algorithm depends on them.
- The stressors built on floating point, and the other integer stressors of `stress-cpu.c`; the tables of known answers (10000 primes, the queens solutions) are finite data.
- `sqrt` in double precision is modelled by the exact integer square root, with which it agrees below 2^52; `StressIsPrime64` is called with values below 2^32 only.
- 32-bit words are natural numbers below 2^32 with the C operators defined on their digits, except in `Crc16`, which uses 16-bit vectors.
- `*ptr++` on 16-bit and 32-bit data is modelled for a little-endian host; whether plain `char` is signed is a parameter.
- `chunksz + upper` is modelled with two's complement wrap-around; C leaves the overflow undefined.
- Primes.MarkComposites: sizes above 2^32 - 65536, for which `j += i` could wrap around, are excluded; the source uses one size, 104730.
- Dentry.Directory.UnlinkStride: more than MAX_DENTRIES files (1000000, stress-tool/stress-ng/stress-ng.h:1539), which the option parser refuses, are excluded.
- Dentry.NameInjective: the number in a name stands for the name; that distinct numbers survive the hashing of overlong names is not claimed.
- The lookups of bogus names and the directory calls of `stress_dentry_misc`, which change no entry.
- The case of a failing `calloc` in `stress_bad_ioctl_dev_new`, where the source dereferences a null pointer; the `ignore` and `ioctl_state` members of its nodes; and a walk cut short by the end of the run.
- Calls of the hash table with a null table or a null string, and of `stress_warn_once_hash` without the shared segment, which return at once.
- `free` and `munmap` are modelled by the order in which nodes are handed to them.
- `stress_mwc_reseed`, `stress_mwc64` and `stress_hash_nhash`: the first reads the clock and the system load, the second joins two words, the third is a plain weighted sum.
- Calls of the native strlcpy and strlcat where a C library has them, and a source that overlaps its destination.
- SwapRuns.RunDaemon: the readings are those of a system in which each file in use adds a fixed amount; every file that a run creates has a name of its own; a name that mkstemp gives again after its file is gone is modelled as a new one.
- Whether `mkstemp` accepts the template: its suffix "/swamd-XXX" (adaptive-swapd/swamd.h:12) ends in three X only, which some C libraries refuse, and then every attempt takes the fatal exit; `mkstempOk` covers that answer.
- The unlinking of swap files and the files that a failed attempt leaves behind for a moment; `mkstemp` gives a name that is not in use.
