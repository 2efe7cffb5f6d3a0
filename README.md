# Caesar and rail-fence ciphers in Dafny

This project models the two classical ciphers in `cypher_implementations.py`:

- a Caesar shift cipher (`caesar_encryption`, `caesar_decryption`);
- a rail-fence transposition (`rail_fence_encryption`, `rail_fence_decryption`).

It proves the properties the ciphers are meant to have.

`caesar.dfy` (module `Caesar`) specifies one character of each direction as a function, `Shift` and `Unshift`. A whole text is specified as a sequence comprehension, `Encrypted` and `Decrypted`. The methods `Encrypt` and `Decrypt` are the Python loops, with the same branches and the same `% 26` arithmetic. Each method is proved to compute its function. The lemmas prove the round trip for every integer key, including negative keys. They also prove the behaviour of key 0, the period 26 of the key, and that decryption is encryption with the negated key.

`rail_fence.dfy` (module `RailFence`) keeps the grid of the source as an `array2<char>`.

- **The walk.** The zig-zag walk is the code's own state machine, `Step` and `Walk` over a `Cursor` of row and direction. For two or more rails it is proved equal to an independent closed-form triangle wave, `Triangle` and `Heading`.
- **Grid reading.** Everything about reading and filling the grid is stated for an arbitrary path, given as a sequence of rows (`Path`). The specification functions are:
  - `Row` and `Rows`: the grid read row by row, skipping '.';
  - `CountOnRow`, `CountAbove` and `Rank`: the row-major position of a marked cell;
  - `Spread`: the text read back along the path.
- **Methods.** `Encrypt` and `Decrypt` run the source's loops on the grid and are proved to return `Encrypted` and `Decrypted`.

Three behaviours of the code shape the model:

- **'.' is dropped.** Encryption starts the grid with '.' and skips every '.' cell when reading. A '.' in the plaintext is therefore dropped, not only the empty cells. The model keeps this: its encryption permutation lemma speaks of the text without '.', and `DotIsDropped` shows the loss. Decryption never looks at '.', and `DecryptedPermutes` shows it rearranges any ciphertext.
- **Fewer than two rails.** For fewer than two rails the code raises `IndexError` as soon as the walk leaves the grid. The model returns the outcome `IndexError` exactly then, and `FitsIff` says when.
- **More rails than characters.** The code inverts for every `rails >= 2`, whatever the text length, and so does the model. With `rails >= len(text)` decryption is the identity, and so is encryption on text without '.': `"a.b"` on three rails encrypts to `"ab"`.

## Model

| member | source | states |
|---|---|---|
| Caesar.Shift | cypher_implementations.py:13-19 | one character of encryption: result is ASCII, non-letters unchanged, upper and lower case each preserved (both directions) |
| Caesar.Unshift | cypher_implementations.py:34-40 | one character of decryption: result is ASCII, non-letters unchanged, case preserved (both directions) |
| Caesar.Encrypted | cypher_implementations.py:11-20 | the ciphertext has the plaintext's length, is ASCII, keeps every non-letter in place and the case of every position |
| Caesar.Decrypted | cypher_implementations.py:32-41 | the plaintext has the ciphertext's length, is ASCII, keeps every non-letter in place and the case of every position |
| Caesar.Encrypt | cypher_implementations.py:11-20 | the encryption loop returns exactly `Encrypted(plaintext, key)` |
| Caesar.Decrypt | cypher_implementations.py:32-41 | the decryption loop returns exactly `Decrypted(ciphertext, key)` |
| Caesar.UnshiftShift | cypher_implementations.py:15-17 | moving a character back by the key undoes moving it forward, for every integer key |
| Caesar.ShiftUnshift | cypher_implementations.py:36-38 | moving a character forward by the key undoes moving it back, for every integer key |
| Caesar.DecryptedEncrypted | cypher_implementations.py:11-41 | decrypting with the same key recovers any ASCII plaintext, for every integer key |
| Caesar.EncryptedDecrypted | cypher_implementations.py:11-41 | encrypting with the same key undoes decryption of any ASCII text |
| Caesar.KeyZero | cypher_implementations.py:15-17 | with key 0 both directions are the identity |
| Caesar.KeyPeriod | cypher_implementations.py:15-17 | keys `k` and `k + 26` encrypt and decrypt alike |
| Caesar.DecryptedIsNegatedKey | cypher_implementations.py:36-38 | decrypting with `k` is encrypting with `-k` |
| Caesar.HelloWorldEncrypted | cypher_implementations.py:121 | "Hello World!" with key 3 encrypts to "Khoor Zruog!" |
| Caesar.HelloWorldDecrypted | cypher_implementations.py:122 | "Khoor Zruog!" with key 3 decrypts to "Hello World!" |
| RailFence.Triangle | cypher_implementations.py:57-63 | the reference triangle wave stays within rows `0 .. rails-1` |
| RailFence.WalkIsTriangle | cypher_implementations.py:54-63 | for `rails >= 2` the code's walk (row and direction) is the triangle wave at every column and never leaves the grid |
| RailFence.WalkBelowTwoRails | cypher_implementations.py:54-63 | for `rails < 2` the walk never turns: column i goes to row i |
| RailFence.RailNonNegative | cypher_implementations.py:58 | the row index is never negative, so Python's negative indexing never applies |
| RailFence.FitsIff | cypher_implementations.py:53-58 | the write raises no IndexError iff the text is empty, `rails >= 2`, or one rail and one character |
| RailFence.WalkStraight | cypher_implementations.py:57-63 | while above the bottom row the walk goes straight down: column i is row i |
| RailFence.FitsInGrid | cypher_implementations.py:53-58 | fitting the walk is the same as every column of the path lying in the grid's rows |
| RailFence.MarkedCells | cypher_implementations.py:88-94 | a path inside the grid marks exactly one cell per column |
| RailFence.RankInRange | cypher_implementations.py:99-103 | every marked cell's row-major rank is below the text length, so the guard `index < len(ciphertext)` never skips a marked cell |
| RailFence.RankInjective | cypher_implementations.py:99-103 | distinct columns' marked cells have distinct row-major ranks, so no ciphertext position is filled twice |
| RailFence.WithoutDots | cypher_implementations.py:69 | on text without '.' the '.'-filter is the identity |
| RailFence.Encrypt | cypher_implementations.py:43-72 | returns exactly `Encrypted(plaintext, rails)`, including `IndexError` when the walk leaves the grid |
| RailFence.ReadRows | cypher_implementations.py:65-70 | reading the filled grid row by row, skipping '.', yields `Rows` of the text over the path |
| RailFence.FillMarkedCells | cypher_implementations.py:96-103 | after the fill loop every marked cell holds the ciphertext character of its rank, every other cell '.', and `index` has consumed exactly `len(ciphertext)` characters |
| RailFence.FillRow | cypher_implementations.py:100-103 | one row of the fill loop fills that row's marked cells in order and advances the index past them |
| RailFence.ReadAlongWalk | cypher_implementations.py:105-114 | the read-back loop returns, for each column, the cell on the walk's row |
| RailFence.Decrypt | cypher_implementations.py:74-116 | returns exactly `Decrypted(ciphertext, rails)`, including `IndexError` when the walk leaves the grid |
| RailFence.RowLength | cypher_implementations.py:67-70 | on text without '.', a row holds one character per column the path puts in it |
| RailFence.RowAt | cypher_implementations.py:67-70 | in its row, column j's character stands after those of the row's earlier columns |
| RailFence.RowsLength | cypher_implementations.py:67-70 | on text without '.', the rows read hold one character per column marked in them |
| RailFence.RowsAt | cypher_implementations.py:67-70 | in the ciphertext, column j's character stands at the row-major rank of its cell |
| RailFence.RowsNextColumn | cypher_implementations.py:67-70 | one more column adds one occurrence of its character to the rows read, unless it is '.' or below them |
| RailFence.RowsOccurrences | cypher_implementations.py:67-70 | every character occurs in the rows as often as in the text, '.' aside |
| RailFence.RowsMultiset | cypher_implementations.py:65-70 | the rows of a grid the path fits are a permutation of the text without '.' |
| RailFence.EncryptedPermutes | cypher_implementations.py:43-72 | whenever the walk fits, encryption succeeds and returns a permutation of the plaintext without '.'; of the plaintext itself when it has none |
| RailFence.SpreadChars | cypher_implementations.py:99-114 | reading back keeps the length and takes column j from the ciphertext position of its cell's rank |
| RailFence.DecryptedChars | cypher_implementations.py:74-116 | whenever the walk fits, decryption succeeds, keeps the length and takes each column from the ciphertext at its cell's rank; no '*' is left |
| RailFence.ReindexedMultiset | cypher_implementations.py:99-114 | a text that takes each position from a distinct position of c is a permutation of c |
| RailFence.SpreadPermutes | cypher_implementations.py:99-114 | over any path inside the grid, reading back is a permutation of the ciphertext, whatever characters it holds |
| RailFence.DecryptedPermutes | cypher_implementations.py:74-116 | whenever the walk fits, decryption succeeds and returns a permutation of the ciphertext, '.' included |
| RailFence.RowIsSlice | cypher_implementations.py:67-70 | a row whose characters are those of c at their ranks is the matching slice of c |
| RailFence.RowOfSpread | cypher_implementations.py:99-114 | row r of the text read back is the slice of the ciphertext spread over row r |
| RailFence.RowsArePrefix | cypher_implementations.py:67-70 | rows that are consecutive slices of c make up a prefix of c |
| RailFence.SpreadRows | cypher_implementations.py:65-70 | over any path inside the grid, reading back the rows of a text without '.' recovers the text |
| RailFence.RowsSpread | cypher_implementations.py:99-114 | over any path inside the grid, the rows of a text read back are the ciphertext again |
| RailFence.DecryptedEncrypted | cypher_implementations.py:43-116 | decryption with the same rails recovers every plaintext without '.' on which the walk fits, in particular for all `rails >= 2` |
| RailFence.EncryptedDecrypted | cypher_implementations.py:43-116 | for ciphertext without '.' on which the walk fits, encrypting its decryption gives the ciphertext back |
| RailFence.SpreadStraight | cypher_implementations.py:99-114 | over a path that goes straight down, reading back is the identity |
| RailFence.MaxRailsIdentity | cypher_implementations.py:57-63 | with at least as many rails as characters decryption is the identity, and encryption too on text without '.' |
| RailFence.DotIsDropped | cypher_implementations.py:53-70 | "a.b" on two rails encrypts to "ab", and "ab" decrypts to "ab": the '.' is lost |
| RailFence.HelloWorld | cypher_implementations.py:123-124 | "Hello World!" on three rails encrypts to "Horel ol!lWd" and decrypts back |

## Left out

- Caesar.Encrypt: requires ASCII text. Python's `isalpha` and `isupper` consult the Unicode database. A non-ASCII letter such as 'é' goes through the lower-case branch, and the floor `% 26` turns it into an unrelated letter of a-z, so the round trip fails on it. Neither is modelled.
- Caesar.Decrypt: requires ASCII text, for the same reason.
- Caesar.Encrypted: requires ASCII text, for the same reason.
- Caesar.Decrypted: requires ASCII text, for the same reason.
- Caesar.Shift: requires an ASCII character, for the same reason.
- Caesar.Unshift: requires an ASCII character, for the same reason.
- The `print` calls at the end of the file are console output. Their values appear only as the `HelloWorld` lemmas.
- Dynamic typing is not modelled. The key and the rail count are integers and the texts are strings; the Dafny types exclude other Python values, such as a list of one-character strings, which the code also accepts.
- Performance is not modelled, for example the quadratic cost of growing a Python string by `+=`. Only the resulting values are.
- Python lists of lists become one `array2<char>`. Rows cannot alias each other in the source either, so nothing is lost.
