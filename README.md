# random_bytes() polyfill — a Dafny model

This project models `random_bytes($bytes)` from `lib/random_bytes.inc.php`. The function is a compatibility shim that returns `$bytes` random bytes read from `/dev/urandom`. It has three parts:

- **Handle cache.** A process-wide `static $fp` holds the handle. When `$fp` is empty, the function opens the device and checks with `fstat` that it is a character device. A handle that fails the check is closed and `$fp` is set to `false`.
- **Argument check.** `RandomCompat_intval` checks the argument, then the count must be at least 1.
- **Read loop.** A `do … while` loop calls `fread($fp, $remaining)` until `$remaining` bytes have arrived. A read that returns `false` abandons the buffer. At the end, the buffer is returned only if its length is exactly `$bytes`. Every other path throws `Exception('Error reading from source device')`.

The operating system is an oracle passed to each call (`Os`). It holds three things:

- whether `fopen` succeeds;
- the `st_mode` that `fstat` reports;
- the sequence of `fread` outcomes: `Fail` (false) or `Chunk(bytes)`.

Reads past the end of that sequence fail. This is an assumption of the model, and it is what makes the read loop finite. The source itself loops forever against a device that keeps returning empty strings.

Chunks are not assumed to respect the requested size. A chunk longer than the request makes the loop overshoot. The final length check at line 233 then throws, and `OverlongReadThrows` proves this. The predicate `Honest` states the `fread` contract (a chunk never exceeds its request) for the lemmas that need it.

Layout:
- `wrappers.dfy` holds `Option` (PHP's `string|false`) and `Result` (value returned or exception thrown).
- `random_bytes.dfy` holds module `RandomCompat`:
  - the argument coercion `Intval`;
  - the handle (`Handle`: `Unset` for null, `Unusable` for false, `Stream(mode)` for an open resource) and the probe;
  - the read loop: the method `ReadLoop`, proved against the recursive specification `Drain`;
  - one call as a function `Call`, and sequences of calls (`Run`, `Opens`);
  - the class `EntropySource`, whose field `fp` is the static `$fp` and whose method `RandomBytes` is the imperative model of the whole function.

The source's comments say the open-and-validate block "should only be run once" (lib/random_bytes.inc.php:139-140, 187-189). The code runs it more often than that. After a failed open or device check it stores `false` in `$fp` (line 152). `empty(false)` is true, so every later call opens and checks the device again (`FailedProbeIsRetried`). Only a valid stream is cached for good (`StreamIsKept`). The model follows the code. The code also opens the device before it validates the argument, so an invalid count can still cause an open, but never a read.

## Model

| member | source | states |
|---|---|---|
| `RandomCompat.Intval` | lib/random_bytes.inc.php:58-63 | an int passes through unchanged; any other (non-numeric) value fails with TypeError('Expected an integer.'); success exactly for ints |
| `RandomCompat.TypeFieldDecides` | lib/random_bytes.inc.php:150 | the device test looks only at the S_IFMT field: permission bits never matter, a character device is accepted, a block device (whose type value contains the character-device bit) is refused |
| `RandomCompat.Probe` | lib/random_bytes.inc.php:142-171 | a non-empty handle is kept as is; an empty one becomes a stream exactly when the open succeeds and the mode is a character device, and otherwise false; the result keeps the invariant that every stream passed the check |
| `RandomCompat.GatheredSnoc` | lib/random_bytes.inc.php:227 | appending one more chunk to the gathered bytes puts it at the end, so the buffer is the read chunks in read order |
| `RandomCompat.Drain` | lib/random_bytes.inc.php:203-228 | the loop stops at the first read that returns false or that brings the total up to the count; all earlier reads returned bytes and together fewer than the count; on a string result the buffer is the concatenation of the chunks read, in order, and at least the count long |
| `RandomCompat.DrainFills` | lib/random_bytes.inc.php:203-228 | short reads are tolerated: if reads i..k return bytes and read k is the first to reach the count, the loop makes exactly those reads and yields their bytes in order |
| `RandomCompat.DrainStopsAtFailure` | lib/random_bytes.inc.php:207-218 | a read returning false before the count is reached ends the loop at once, after exactly that read, with the buffer set to false |
| `RandomCompat.HonestReadsFillExactly` | lib/random_bytes.inc.php:207-233 | when no chunk exceeds its request, a string result is exactly the requested length |
| `RandomCompat.ReadLoop` | lib/random_bytes.inc.php:195-228 | the imperative loop returns what `Drain` specifies; read j asks for `$remaining`, which is the count less the bytes gathered by reads before it, and is positive; `|buf| + remaining == bytes` is its loop invariant |
| `RandomCompat.Call` | lib/random_bytes.inc.php:136-247 | a non-int count throws TypeError('random_bytes(): $bytes must be an integer') and a count below 1 throws Error('Length must be greater than 0'), both with no read; without a valid handle a valid count throws the device error with no read; a returned buffer is exactly the requested length and is the concatenation of the chunks read; the open happens exactly when `$fp` was empty |
| `RandomCompat.ShortReadsFill` | lib/random_bytes.inc.php:203-237 | a device that supplies exactly n bytes over reads 0..k, short reads included, makes the call return those bytes after k + 1 reads |
| `RandomCompat.ReadFailureThrows` | lib/random_bytes.inc.php:207-246 | a read that returns false before n bytes are gathered makes the call throw 'Error reading from source device' after exactly that read; no partial buffer is returned |
| `RandomCompat.OverlongReadThrows` | lib/random_bytes.inc.php:223-246 | a chunk that overshoots the count makes the final length check fail, so the call throws |
| `RandomCompat.HonestDeviceFailsOnlyOnReadFailure` | lib/random_bytes.inc.php:203-246 | with a valid handle and chunks never longer than requested, a call succeeds if and only if its last read returned bytes |
| `RandomCompat.StreamIsKept` | lib/random_bytes.inc.php:138-142 | once a stream is cached, no later call reopens or replaces it, whatever the later calls ask or the system answers |
| `RandomCompat.FailedProbeIsRetried` | lib/random_bytes.inc.php:147-155 | a failed open or device check stores false, which is empty, so each later call opens the device again (one open per call) while the device stays unusable |
| `RandomCompat.RunKeepsValidated` | lib/random_bytes.inc.php:149-153 | across any sequence of calls, every cached stream has passed the character-device check |
| `RandomCompat.EntropySource.constructor` | lib/random_bytes.inc.php:138 | the static handle starts as null, with no open and no read made |
| `RandomCompat.EntropySource.RandomBytes` | lib/random_bytes.inc.php:136-247 | the imperative function with its static state returns or throws what `Call` specifies and leaves `$fp` as `Call` says; it opens the device exactly when `$fp` was empty; it makes as many reads as `Call` says, so an invalid count or a missing handle causes no read; a cached stream is kept and not reopened; the handle invariant is preserved |

## Left out

- `fopen`, `fstat`, `fread` and `fclose` are not called. They are replaced by the `Os` oracle passed to each call (open success, `st_mode`, read outcomes).
- `stream_set_read_buffer` and `stream_set_chunk_size` (lines 164-169) have no observable effect on the returned bytes and are not modelled.
- Termination against a device that keeps returning empty strings is not modelled. The source loops forever there. The model instead treats reads past the end of the finite oracle sequence as `false`.
- The float and numeric-string coercions of `RandomCompat_intval`, including its range test against `PHP_INT_MAX` (lines 44-57), are not modelled. They are floating-point and type-juggling behaviour. Values are either ints or non-numeric.
- `RandomCompat_intval` is modelled only with `$fail_open` set to false, its value at the one call site.
- PHP's 64-bit int width is not modelled. Counts are unbounded integers.
- `RandomCompat_strlen` and its `mbstring.func_overload` branch (lines 69-116) are a runtime-configuration shim. The model uses the sequence length instead.
- The randomness and uniqueness of the output are not modelled. They are properties of the operating system's device and cannot be proved here.
- Concurrency around the static handle is not modelled. The source has no locking.
