# HKDF (RFC 5869) as implemented by package `hkdf`

This project models `hkdf/hkdf.go`, the Go package that implements HKDF. HKDF
is the HMAC-based Extract-and-Expand Key Derivation Function of RFC 5869.

- `Extract` (section 2.2 of RFC 5869) turns a secret and an optional salt into
  a pseudorandom key (PRK). It computes HMAC-Hash(salt, secret). A nil salt is
  replaced by `size` zero bytes.
- `Expand` (section 2.3) returns a streaming reader keyed with the PRK. Each
  `Read` hands out the next bytes of T(1) | T(2) | ... | T(255), where T(0) is
  empty and T(i) = HMAC-Hash(PRK, T(i-1) | info | i).
- `New` is `Expand` applied to the result of `Extract`.

The reader is a small state machine over three fields:

- `counter` is a byte that starts at 1 and wraps to 0 after block 255.
- `prev` is the last block generated.
- `buf` is the unread tail of `prev`.

`Read` works in three steps:

1. It refuses a request larger than what is left. The amount left is computed
   with byte wrap-around: `len(buf) + int(255-counter+1)*size`.
2. It drains `buf` into the caller's slice.
3. It generates blocks until the slice is full and keeps the leftover.

Everything is in `hkdf.dfy`, which holds two modules:

- `Hkdf` models the package.
  - A Go `byte` is a newtype over 0..255, and the wrap-around is written out.
  - The hash is a parameter. A `Hash` value carries the digest size and HMAC
    as a function of key and message. `HashOk` states what the code relies on:
    every digest is `size > 0` bytes long.
  - The reader is the class `Reader`. Its `counter`, `prev` and `buf` are the
    fields that Read updates. A ghost field `output` records every byte that a
    successful Read has handed out.
  - `Read` writes into an `array<byte>`, as the Go code writes into the
    caller's slice.
  - Read's body is split into three methods so that each proof stays small:
    - `Read` does the limit check (hkdf.go:47-52).
    - `Fill` drains `buf`, runs the loop and keeps the leftover (hkdf.go:53-72).
    - `Step` is one pass of the loop (hkdf.go:59-69).
  - Go's `copy` is the method `Copy`.
  - The reference output is `Okm(k)`, which is T(1) | ... | T(k). Its
    properties are the lemmas `OkmLength` and `OkmPrefix`.
  - `Reader.Valid` is the invariant of the `hkdf` struct (hkdf.go:35-44).
    It says `prev` is T(g), where g is the number of blocks generated. It
    says the bytes handed out followed by `buf` are T(1) | ... | T(g). It also
    says `buf` is a suffix of `prev` shorter than one block. It is stated
    through the predicate `StateOk`.
- `HkdfClient` uses the reader as a caller would. It defines the one-shot
  output of section 2.3 of RFC 5869 (the first L bytes of T(1) | ... | T(N),
  with N = ceil(L/size)). N is `BlocksFor`, whose bounds are the lemma
  `BlocksForBounds`. It then proves the following:
  - One read from a fresh reader gives exactly that output.
  - Two reads give the same bytes as one read of the total length.
  - The limit is exactly 255 blocks.
  - After the last block the counter has wrapped to 0. A zero-length read
    still succeeds, and every non-empty read fails.

## Model

| member | source | states |
|---|---|---|
| Hkdf.Zeros | hkdf/hkdf.go:28 | `make([]byte, n)` is n bytes, all zero |
| Hkdf.Extract | hkdf/hkdf.go:26-33 | the PRK is `size` bytes long; it is HMAC keyed with the salt when one is given (even an empty one), and HMAC keyed with `size` zero bytes when the salt is nil |
| Hkdf.AbsentSaltIsZeroSalt | hkdf/hkdf.go:27-29 | extracting with a nil salt equals extracting with an explicit salt of `size` zero bytes |
| Hkdf.Block | hkdf/hkdf.go:59-63 | T(0) is empty and every T(i) with 1 <= i <= 255 is exactly one digest (`size` bytes) long |
| Hkdf.OkmLength | hkdf/hkdf.go:58-70 | the first k blocks T(1) to T(k) together are k * size bytes |
| Hkdf.Stream | hkdf/hkdf.go:58-70 | everything a reader can ever derive, T(1) to T(255), is 255 * size bytes |
| Hkdf.OkmPrefix | hkdf/hkdf.go:58-70 | the first j blocks are a prefix of the first k blocks whenever j <= k |
| Hkdf.OkmIsStreamPrefix | hkdf/hkdf.go:58-70 | the first k blocks are a prefix of the whole 255-block stream |
| Hkdf.Generated | hkdf/hkdf.go:40 | the number of blocks generated, read off the counter (which starts at 1 and is 0 after block 255), never exceeds 255 |
| Hkdf.BlocksLeft | hkdf/hkdf.go:49 | `int(255-counter+1)` in byte arithmetic: the blocks left plus the blocks generated is 255, and none are left exactly when the counter has wrapped to 0 |
| Hkdf.Increment | hkdf/hkdf.go:64 | `counter++` on a nonzero counter advances the generated-block count by exactly one |
| Hkdf.LoopStarts | hkdf/hkdf.go:53-55 | draining the first n bytes of `buf` into the slice starts the loop with its invariant |
| Hkdf.NextBlockInRange | hkdf/hkdf.go:49-64 | when the limit check passed and the loop needs another block, the counter is not 0, so the byte fed to HMAC is in 1..255 and at most 255 blocks are made |
| Hkdf.NextBlockOk | hkdf/hkdf.go:59-69 | HMAC over prev, info and the counter is the next block T(i+1), and copying its first m bytes keeps everything handed out, copied and unread equal to T(1) to T(i+1) |
| Hkdf.LoopEnds | hkdf/hkdf.go:72 | keeping `buf[n:]` leaves a state in which the bytes handed out followed by `buf` are all the blocks generated, and `buf` is a shorter-than-a-block suffix of `prev` |
| Hkdf.Copy | hkdf/hkdf.go:54 | `copy(p[at:], src)` copies min(room, len(src)) bytes into `p` from position `at`, returns that count, and leaves the rest of `p` as it was |
| Hkdf.Reader.Expand | hkdf/hkdf.go:83-86 | a new reader holds the given hash, key and info, has `size` equal to the digest size, a counter of 1, and an empty `prev`, `buf` and output |
| Hkdf.Reader.Read | hkdf/hkdf.go:46-75 | fails iff `len(p) > len(buf) + int(255-counter+1)*size`, which is iff the total read would exceed 255 * size; on failure it returns 0 and the error, and changes neither the reader nor `p`; on success it returns `len(p)`, fills `p` with the next bytes of T(1) to T(255), keeps the reader invariant (`buf` a suffix of `prev` shorter than a block), and when `buf` already held enough it only shortens `buf` |
| Hkdf.Reader.Fill | hkdf/hkdf.go:53-72 | drains `buf`, generates blocks until `p` is full, keeps the leftover; the handed-out bytes grow by exactly `p`, and when no block was needed `counter` and `prev` are unchanged and `buf` has lost the bytes copied |
| Hkdf.Reader.Step | hkdf/hkdf.go:59-69 | one loop pass: `prev` becomes the next block, `buf` is that whole block, and its first min(len(p), size) bytes are written into `p` after what was already there |
| Hkdf.Reader.Capacity | hkdf/hkdf.go:49 | the capacity the check computes is exactly 255 * size less the bytes already handed out |
| Hkdf.Reader.Exhausted | hkdf/hkdf.go:49-64 | once 255 * size bytes have been handed out, the counter has wrapped to 0 and `buf` is empty |
| Hkdf.Reader.OutputIsStreamPrefix | hkdf/hkdf.go:54-72 | everything a reader has handed out, over any sequence of successful Reads, is a prefix of T(1) to T(255) |
| Hkdf.New | hkdf/hkdf.go:90-93 | a new reader is exactly the one `Expand` builds from the key that `Extract` derives from the secret and salt |
| HkdfClient.BlocksForBounds | hkdf/hkdf.go:58-70 | for L <= 255 * size, N = ceil(L/size) blocks cover L bytes with less than one block to spare, and N <= 255 |
| HkdfClient.OneShot | hkdf/hkdf.go:58-70 | the one-shot output of section 2.3 of RFC 5869 for length L is L bytes long |
| HkdfClient.OneShotIsStreamPrefix | hkdf/hkdf.go:58-70 | the one-shot output of any length is a prefix of the 255-block stream |
| HkdfClient.ReadFrom | hkdf/hkdf.go:46-75 | reading n bytes succeeds iff the total read stays within 255 * size, and appends exactly the bytes returned to what the reader has handed out |
| HkdfClient.ReadOnce | hkdf/hkdf.go:46-86 | one read of L bytes from a fresh reader succeeds iff L <= 255 * size, and then returns exactly the one-shot output of length L |
| HkdfClient.ReadTwice | hkdf/hkdf.go:46-75 | two reads of a and b bytes succeed exactly within the 255-block limit, and together return a prefix of the stream; when the first fails, that error is reported for both |
| HkdfClient.SplitRead | hkdf/hkdf.go:46-75 | reading a bytes and then b bytes returns the same bytes as one read of a + b bytes on a fresh reader |
| HkdfClient.EmptyRead | hkdf/hkdf.go:48-72 | a zero-length read always succeeds, returns 0, and leaves `counter`, `prev` and `buf` unchanged |
| HkdfClient.Limit | hkdf/hkdf.go:48-52 | a fresh reader delivers exactly 255 * size bytes in one read and refuses 255 * size + 1 |
| HkdfClient.Exhaust | hkdf/hkdf.go:49-64 | after all 255 blocks are read the counter is 0; a zero-length read still succeeds and a one-byte read fails |

## Left out

- HMAC and `hash.Hash` are not modelled. The hash is a parameter that carries a
  digest size and HMAC as a function of key and message. The Reset/Write/Write/Write/Sum sequence of hkdf.go:59-63 is
  one HMAC call on `prev | info | [counter]`. The two `hash()` instances (for
  Extract's salt size and for Expand's `expander.Size()`) are taken to give
  the same size.
- Go slice aliasing is not modelled. The code reuses `prev`'s backing array
  (`Sum(f.prev[:0])`) and makes `buf` alias `prev`. Here `prev` and `buf` are
  values, and the caller's slice `p` is an array the reader does not hold.
- The `io.Reader` interface is left out: Read is a method of `Reader`.
- The error is a single variant, `EntropyLimitReached`; the error string of
  hkdf.go:51 is not kept.
- A nil `info` and an empty one behave the same in the code, so `info` is a
  plain sequence. The salt is an `Option` because the code branches on a nil
  salt (hkdf.go:27) and passes a present salt, even an empty one, to HMAC
  unchanged. With a real HMAC, a key shorter than the hash block is padded
  with zeros, so an empty salt and `size` zero bytes give the same PRK. The
  abstract `mac` does not model that padding and keeps the two keys apart.
- Concurrent use is not modelled; the reader is not safe for it.
- Pseudorandomness and other cryptographic claims cannot be stated without a
  model of the hash.
- Known-answer vectors from RFC 5869 are not modelled, because they need a
  real SHA-256.
- Read, Fill and Step together are Go's single `Read`. The split adds no
  behaviour. Each part's contract is the part of Read it covers.
