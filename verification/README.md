# Youwee deep-link intake, modelled in Dafny

The Youwee desktop application can be started, or re-activated, with a
`youwee://download?...` deep link on its command line. The Rust side
(`src-tauri/src/commands/external.rs`) does two things with such links
before the frontend sees them:

1. **Recognition.** `is_valid_external_link` decides whether a string is a
   deep link worth passing on. `extract_external_link_from_arg` digs a link
   out of one command-line argument, which may be padded or quoted.
   `extract_external_links_from_argv` runs that over every argument and
   removes duplicates.
2. **The pending buffer.** Links that arrive before the frontend listens
   are kept in a bounded, duplicate-free FIFO of at most 100 valid links.
   `enqueue_external_links` adds to it and `take_pending_external_links` /
   `consume_pending_external_links` drain it.

The model has four modules:

- `Text` (`text.dfy`) holds the Rust string operations the code relies on:
  `trim`, `trim_matches`, `starts_with`, `find`, `contains` and the byte
  length `len`. A string is the sequence of its Unicode scalar values.
  `len` is the exact UTF-8 byte count, so the 4096 bound is a byte bound as
  in the code. `trim` strips the characters Rust's `char::is_whitespace`
  accepts. The lemmas use only a few facts about that set: the space is
  whitespace, and letters and quote characters are not.
- `ExternalLinks` (`external_links.dfy`) holds the validity predicate, the
  per-argument extraction and the argument scan, with their properties.
- `Sequences` (`sequences.dfy`) holds duplicate-freedom, first-occurrence
  indexing, and the "keep each value once, in first-appearance order" pass
  that the argument scan uses.
- `PendingLinks` (`pending_links.dfy`) holds the buffer as a value
  `Pending(links)`. Enqueue and take are pure transitions on it. The
  invariant `Wellformed` says: only valid links, none twice, at most 100.

`Wrappers` (`wrappers.dfy`) only defines `Option`.

Two details of `is_valid_external_link` are easy to misread:

- The length bound is checked on the UTF-8 byte length (`len()`), not on
  the character count.
- `v=1` and `url=` are plain substring tests anywhere in the trimmed link.
  They are not query-parameter lookups. So `dev=1` and `v=10` both pass the
  version test.

## Model

| member | source | states |
|---|---|---|
| `Text.Utf8Length` | src-tauri/src/commands/external.rs:36 | The byte length `len()` is zero exactly for the empty string. It is at least the character count and at most four times it. |
| `Text.Find` | src-tauri/src/commands/external.rs:23 | `find` reports a position exactly when the pattern occurs. The reported position is an occurrence, and no earlier position is one. |
| `Text.StripByShape` | src-tauri/src/commands/external.rs:14 | `trim` / `trim_matches` leave a contiguous piece of the input. Everything cut on either side was a selected character. What remains is empty or begins and ends with a kept character. |
| `Text.TrimIgnoresPadding` | src-tauri/src/commands/external.rs:35 | Whitespace added on either side of a string does not change its trimmed form. |
| `ExternalLinks.ValidLinkCharacterisation` | src-tauri/src/commands/external.rs:34-43 | A link is valid iff its trimmed text is non-empty, at most 4096 bytes long, starts with `youwee://download`, and has an occurrence of `v=1` and one of `url=` somewhere. |
| `ExternalLinks.ValidLinkLengthBounds` | src-tauri/src/commands/external.rs:36-39 | A valid link has between 17 and 4096 characters after trimming, because the byte bound also bounds the characters. |
| `ExternalLinks.ValidIgnoresWhitespace` | src-tauri/src/commands/external.rs:35 | Whitespace padding on either side never changes validity. |
| `ExternalLinks.ValidTrimmed` | src-tauri/src/commands/external.rs:35 | A link and its trimmed form are valid together or invalid together. |
| `ExternalLinks.ValidCleanAsciiLink` | src-tauri/src/commands/external.rs:34-43 | Take an ASCII link with no surrounding whitespace, at most 4096 characters, that has the prefix and both markers. It is valid. |
| `ExternalLinks.VersionMarkerInsideOtherParameter` | src-tauri/src/commands/external.rs:42 | `youwee://download?dev=1&url=` is valid. The version test only looks for the substring `v=1`. |
| `ExternalLinks.VersionMarkerPrefixOfOtherVersion` | src-tauri/src/commands/external.rs:42 | `youwee://download?v=10&url=x` is valid. `v=10` contains `v=1`. |
| `ExternalLinks.PrefixNotFollowedByQuery` | src-tauri/src/commands/external.rs:39-42 | `youwee://downloads?xurl=v=1` is valid. Only the prefix is tested, and the markers can sit inside other text. |
| `ExternalLinks.ExtractLinkFromArg` | src-tauri/src/commands/external.rs:13-32 | Any link extracted from an argument starts with `youwee://` and is valid. |
| `ExternalLinks.StripQuotesKeepsScheme` | src-tauri/src/commands/external.rs:25 | Stripping double quotes from text that starts with `youwee://` only removes trailing quotes, and the scheme stays in front. |
| `ExternalLinks.ExtractPrefixedArg` | src-tauri/src/commands/external.rs:14-20 | Suppose the stripped argument starts with `youwee://`. Then it is returned whole if valid, and nothing is returned otherwise. |
| `ExternalLinks.ExtractEmbeddedLink` | src-tauri/src/commands/external.rs:22-31 | Otherwise, the result is the suffix from the first `youwee://` with trailing `"` removed, if that suffix is valid, and nothing otherwise. |
| `ExternalLinks.ExtractWithoutScheme` | src-tauri/src/commands/external.rs:22-23 | If `youwee://` does not occur in the stripped argument, nothing is extracted. |
| `ExternalLinks.StripArgIsSlice` | src-tauri/src/commands/external.rs:14 | The stripped argument is a contiguous piece of the argument. |
| `ExternalLinks.ExtractedLinkIsSliceOfArg` | src-tauri/src/commands/external.rs:13-32 | An extracted link is a contiguous piece of its argument. Extraction only cuts text away and never rewrites it. |
| `ExternalLinks.ExtractCleanLink` | src-tauri/src/commands/external.rs:13-20 | A valid `youwee://` link with no whitespace or quote at either end is extracted from itself unchanged. |
| `ExternalLinks.ExtractQuotedLink` | src-tauri/src/commands/external.rs:14-17 | Whitespace padding plus double quotes around such a clean link are all removed, and the link itself comes back. |
| `ExternalLinks.ExtractKeepsInnerWhitespace` | src-tauri/src/commands/external.rs:14-17 | Whitespace inside the quotes survives. For a valid link `l`, the argument `"l "` yields `l ` with its trailing space. |
| `ExternalLinks.ExtractLinksFromArgv` | src-tauri/src/commands/external.rs:45-55 | The scan returns no duplicates and at most one link per argument. Every link is valid and is what some argument extracts to. Every extracted link appears in the result. Links are ordered by the position of their first producing argument. |
| `Sequences.FirstIndex` | src-tauri/src/commands/external.rs:49 | The position of the first occurrence, or the length when the value does not occur. |
| `Sequences.KeepFirstOccurrences` | src-tauri/src/commands/external.rs:46-53 | Keeps every present value exactly once, in the order of its first appearance. |
| `PendingLinks.Push` | src-tauri/src/commands/external.rs:62-73 | An invalid or already-pending link changes nothing. Otherwise the link is appended verbatim as the newest entry, and exactly the newest `min(n+1, 100)` entries are kept. |
| `PendingLinks.PushPreservesWellformed` | src-tauri/src/commands/external.rs:62-73 | One push keeps the buffer duplicate-free, at most 100 long and valid-only. |
| `PendingLinks.EnqueuePreservesWellformed` | src-tauri/src/commands/external.rs:57-75 | Enqueueing any batch keeps that invariant. |
| `PendingLinks.EnqueueInvalidIsNoOp` | src-tauri/src/commands/external.rs:58-65 | A batch that is empty or has only invalid links leaves the buffer unchanged. |
| `PendingLinks.EnqueueStoresOnlyGivenLinks` | src-tauri/src/commands/external.rs:62-67 | Every buffered link was already buffered or is a valid link of the batch, stored exactly as given. |
| `PendingLinks.LastLinkIsBuffered` | src-tauri/src/commands/external.rs:66-71 | If the last link of a batch is valid, it is in the buffer afterwards. |
| `PendingLinks.EnqueueWithinCapacityKeepsOld` | src-tauri/src/commands/external.rs:66-71 | While the batch fits, the old contents stay in front and the buffer grows by at most the batch size. |
| `PendingLinks.EnqueueWithinCapacityKeepsNew` | src-tauri/src/commands/external.rs:63-67 | While the batch fits, every valid link of the batch ends up buffered. |
| `PendingLinks.PushIntoFullBuffer` | src-tauri/src/commands/external.rs:68-71 | A new link pushed into a full buffer drops exactly the oldest entry and becomes the last one. |
| `PendingLinks.EnqueueKeepsWhitespace` | src-tauri/src/commands/external.rs:63-67 | A valid link with leading whitespace is stored with that whitespace. Validation trims, but storage does not. |
| `PendingLinks.TakePending` | src-tauri/src/commands/external.rs:77-82 | Taking hands out exactly the buffered links, oldest first, and leaves the buffer empty. |
| `PendingLinks.ConsumePending` | src-tauri/src/commands/external.rs:84-87 | The frontend command does the same as take. |
| `PendingLinks.TakeTwiceIsEmpty` | src-tauri/src/commands/external.rs:77-82 | A second take right after a first hands out nothing. |
| `PendingLinks.TakePreservesWellformed` | src-tauri/src/commands/external.rs:77-82 | Taking from a well-formed buffer hands out duplicate-free valid links and leaves a well-formed buffer. |
| `PendingLinks.EmptyWellformed` | src-tauri/src/commands/external.rs:4 | The initial empty buffer is well formed. |

## Left out

- The `Mutex` around the global buffer and the lock-poisoning branches (lines 4, 61 and 78-81) are left out. The buffer is a plain value, and every access succeeds. A poisoned lock makes enqueue do nothing and take return an empty list. The model does not represent this.
- The `#[tauri::command]` attribute (line 84) is framework wiring and is not modelled.
- `ExternalOpenUrlEventPayload` (lines 8-11) only shapes serialized data and has no logic, so it is not modelled.
- `ExtractLinksFromArgv` extracts from every argument first and then keeps first occurrences. The source does both in one loop. Extraction is pure, so the result is the same.
- `Text.Find` reports a character position. Rust reports a byte offset. Both name the same place in the text, so the slice taken at it is the same.
- The deep-link parser, the host-safety classifier and the retry classifier live in the TypeScript frontend, outside `external.rs`, and are not part of this model.
