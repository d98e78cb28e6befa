# Safe Disk: a verified model of its storage core

Safe Disk keeps directory trees in encrypted form. This project models the
parts of its native library where a mistake would lose or mix up data, and
proves what they promise:

- **Converting a root in place** (`ConvertModel`, `ConvertSafety`, `ConvertRecovery`,
  `ConvertManager`, `Verification`, `Trees`, `Glob`, `Order`). A conversion builds a work tree,
  compares it with its source, renames the root to a backup and the work tree to the root, and
  leaves a phase marker inside the directory it renames. `ConvertModel` is the machine: a disk,
  one statement at a time, a crash or a failed statement anywhere, recovery deciding from the
  markers. `ConvertManager` is the same in imperative form; each of its methods records the
  states it passes and is proved to take only steps of the machine. Recovery looks for backups
  and work directories with file name patterns built from the root path; `Glob` has their
  meaning on Unix.
- **Encrypted files** (`Bytes`, `Ciphers`, `ChunkProcessor`, `FileContext`, `FileHistory`).
  Four ciphers that all XOR with a key byte per position, a chunked writer, and a file context,
  proved to behave as an ordinary byte file over whole histories of calls. AES-XTS seeks before
  every read and needs no condition; the others need their backing cursor at the position when
  they read, and where it is is a function of the calls before.
- **The block cache over such a file** (`BlockCache`, `Adapter`, `AdapterHistory`).
- **The streaming directory walker** (`WalkSpec`, `WalkOptions`, `WalkLookup`, `Walker`), which keeps
  its waiting directories as joined paths, and what its options mean.
- **Paths** (`PathClean`, `PathParser`, `PathContains`, `StorePath`, `NamePaths`): the one-pass parser,
  the printer, containment, component-wise name encryption on top, and what a path joined from
  directory entries leads back to (`NamePaths`).
- **Replacing one file** by import, export and copy (`FileReplace`).
- **Changing a root's password or hint** (`RootConfig`, `RootConfigWriter`, `RootConfigRuns`).
- **WebDAV mounts and Digest counters** (`WebDavMounts`, `Digest`).

Ciphers, hashes, key derivation, sealing, base64 and random values are functions or parameters
with the laws that are needed: opening what was sealed, deciphering what was enciphered, no two
files with one digest, no two passwords with one key, no two texts with one hash. The operation lock and the configuration lock are taken to exclude each
other's holders, and operation ids and random names to be new.

Where the code does less than its comments or a reader may expect, the exact condition is
proved: an empty write past the end extends an encrypted file; the cache adapter is
coherent after an empty write, or after a new size, only in the stated cases, since it never
truncates the file below; its `ReadAt` answers end of file when the storage fails; a walker that
recurses does not start over when it is reset; a relative path such as `./a:b` prints
to a text that parses as a drive; `.` prints to nothing; containment does not look at the kind
of path, and a root without components contains only itself; an import cannot succeed
while both the destination and a backup are there, which is how a crash may leave them, nor an
export while a temporary file is; a failed unmount is never tried again; a restored Digest
session accepts requests that were accepted before it was restored, while their nonce is good.

Two conditions concern names. Recovery converges exactly for root paths without the
characters `*`, `?`, `[` and backslash: a root called `Photos [1]`, stopped between its two
renames, is not found again, though for every root path the original stays where this
operation put it, if no other directory that the patterns find claims the root. And since
entries are found again by joined paths, a name with a backslash may lead elsewhere, and a name
that is a drive such as `a:`, or at the top one such as `ab:c`, is refused: a walk is complete or
reports an error exactly for names whose path is refused or leads to themselves. Two trees that
verification passes, where no path of the root leads elsewhere, are the same if the parser leaves
the names on the plain side whole; if it leaves those of the root whole, only then.

## Model

| member | source | states |
|---|---|---|
| ConvertSafety.NothingIsLost | native/sec_fs/sec_transfer/v3/convert.go:195-225 | In any run of conversions, recoveries, crashes and failed statements, from any disk and any markers, a tree once at the root or at a backup is later at the root or at a backup, and a backup never changes |
| ConvertSafety.StepKeeps | native/sec_fs/sec_transfer/v3/convert.go:306-381 | The same for one step of one statement, whichever statement it is |
| ConvertSafety.OnlyVerifiedWorkIsInstalled | native/sec_fs/sec_transfer/v3/convert.go:212-214 | Whenever convert or recovery renames a work tree to the root, that tree passed verification against a source that is kept at a backup; with plain names and a root none of whose own paths leads elsewhere it holds every source entry that is not left out |
| ConvertSafety.RunSound | native/sec_fs/sec_transfer/v3/convert.go:243-433 | In every run each convert marker on disk sits where its phase allows, each verified pair is still what was compared, and a running statement is allowed where it is |
| ConvertRecovery.OriginalIsAtRootOrOwnBackup | native/sec_fs/sec_transfer/v3/convert.go:195-225 | Whatever the root is called: after one conversion with any crashes and recoveries, the original is at the root, or at this operation's own backup path with an agreeing converted tree at the root or the work path, if no directory of another path that the search sees held a valid marker claiming this root |
| ConvertRecovery.AlwaysAtHandIffOthersUnseen | native/sec_fs/sec_transfer/v3/convert.go:273-289 | From every starting disk that holds exactly if the search sees no directory of another path: a claim seen there makes a recovery move the root to another backup |
| ConvertRecovery.ActsOnOwnMarker | native/sec_fs/sec_transfer/v3/convert.go:243-317 | Whichever directories the search sees or misses, a recovery acts on this operation's first marker as its stage asks, or on nothing |
| ConvertRecovery.StaysOnTrack | native/sec_fs/sec_transfer/v3/convert.go:306-381 | Whatever the root is called, under the same condition, from every crash point, also inside recovery, the disk is one of six recoverable shapes, with at most the marker of an interrupted export beside the root's own, and everything else on it is untouched |
| ConvertRecovery.StepOnTrack | native/sec_fs/sec_transfer/v3/convert.go:306-381 | One statement, crash or start of recovery keeps the disk in one of these shapes, the export marker in the root included; a recovery that finds nothing to act on changes nothing |
| ConvertRecovery.RecoveryConverges | native/sec_fs/sec_transfer/v3/convert.go:243-381 | For a root path whose search finds exactly its own directories a recovery that runs to its end rolls back exactly if the rename marker was not written, up to the marker of an interrupted export, and goes forward otherwise; its answer says which: none exactly if nothing changed, run again exactly if a marked conversion was rolled back, renames finished exactly if this recovery put the work tree at the root, completed exactly if the converted tree was there and only markers went; attention is asked for exactly after a recorded verification failure; one more recovery finds nothing |
| ConvertRecovery.ConvergesExactlyForLiteralRoots | native/sec_fs/sec_transfer/v3/convert.go:273-289 | Recovery converges from every disk exactly if the root path holds none of the characters * ? [ and backslash; for every other root path there is a disk from which it does not |
| ConvertModel.LiteralIsExact | native/sec_fs/sec_transfer/v3/convert.go:273-289 | For a root path without these characters the search sees the root, its backups and its work directories and nothing else |
| ConvertModel.OtherRootsAreNotExact | native/sec_fs/sec_transfer/v3/convert.go:273-289 | For any other root path the search is refused, misses all of them, or sees a directory of another root |
| Glob.LiteralFinds | native/sec_fs/sec_transfer/v3/convert.go:275-282 | The pattern of a root path without pattern characters finds exactly that path followed by the tag and a rest without a slash |
| Glob.MetaFindsWrong | native/sec_fs/sec_transfer/v3/convert.go:275-282 | With a pattern character in the root path the pattern is malformed, finds nothing at all, or finds a directory of another root |
| Glob.BracketHidesBackups | native/sec_fs/sec_transfer/v3/convert.go:275-282 | A root whose last name ends in a character in brackets finds none of its backups |
| Glob.UnitsMean | native/sec_fs/sec_transfer/v3/convert.go:275-282 | In a pattern a question mark is any one character, a star anything, a backslashed character itself, and brackets one character in, or after ^ out of, a range |
| Glob.MalformedUnits | native/sec_fs/sec_transfer/v3/convert.go:275-282 | Unclosed brackets and a last backslash are malformed |
| ConvertRecovery.SettledIsClean | native/sec_fs/sec_transfer/v3/convert.go:55-87 | A rolled back or finished disk meets the conditions under which the next conversion may start |
| ConvertModel.ChoiceUnique | native/sec_fs/sec_transfer/v3/convert.go:243-304 | What recovery decides is determined by the disk and the root path: the first marker in the order root, backups and work directories that the patterns find |
| ConvertModel.ValidOpHasNoSlash | native/sec_fs/sec_transfer/v3/marker.go:31-46 | A valid operation id is not empty and holds no separator and no dot |
| ConvertModel.OwnDirectoriesAreReserved | native/sec_fs/sec_transfer/v3/convert.go:59-61 | Work and backup directories have names that the walks leave out |
| ConvertModel.FirstInOrderDecides | native/sec_fs/sec_transfer/v3/convert.go:273-304 | Recovery acts on the root's marker if it has one, else on that of the first backup by path, else of the first other work directory |
| ConvertModel.RefusedExactly | native/sec_fs/sec_transfer/v3/marker.go:212-242 | Recovery ends in an error exactly if a pattern is malformed or it sees a marker file that is unreadable or misnamed |
| ConvertModel.AnswerByPhase | native/sec_fs/sec_transfer/v3/convert.go:318-380 | The answer for a valid marker by its phase and by which of root, work and backup exist |
| ConvertManager.Manager.WriteMarker | native/sec_fs/sec_transfer/v3/marker.go:51-118 | A marker write is all or nothing, after the directory was made; every disk state it passes is in the recorded run |
| ConvertManager.Manager.RemoveMarkerFile | native/sec_fs/sec_transfer/v3/marker.go:124-139 | A marker removal removes that marker and nothing else, and may report an error after having done so |
| ConvertManager.Manager.RenamePath | native/sec_fs/sec_transfer/v3/durability.go:183-191 | A rename moves the whole directory or nothing; an error may follow a rename that happened |
| ConvertManager.Manager.MkdirAllPath | native/sec_fs/sec_transfer/v3/durability.go:149-181 | Making a directory leaves an existing one alone |
| ConvertManager.Manager.RemoveAllPath | native/sec_fs/sec_transfer/v3/durability.go:207-215 | Removal shrinks the directory step by step and then removes it; nothing else changes |
| ConvertManager.Manager.CopyToWork | native/sec_fs/sec_transfer/v3/convert.go:109-162 | Encrypting touches only the work directory; decrypting also puts the marker of the export into the root, which is there after any interruption and gone when the copy is complete |
| ConvertManager.Manager.WriteExportMarker | native/sec_fs/sec_transfer/v3/manager.go:258-271 | The export's marker goes into the root it reads, whole or not at all |
| ConvertManager.Manager.FillWork | native/sec_fs/sec_transfer/v3/convert.go:106-115 | Copying the entries touches only the work directory and may stop half way |
| ConvertManager.Manager.ConvertRoot | native/sec_fs/sec_transfer/v3/convert.go:55-87 | Without an error the work tree that was built, found agreeing by verification, is at the root and the original at the backup; without a fault, from a disk without own markers, there is no error if that tree is found alike; all disk states are steps of the machine, and from such a disk they are one conversion in the sense of the recovery theorems |
| ConvertManager.Manager.ConvertTree | native/sec_fs/sec_transfer/v3/convert.go:89-178 | The same after the first marker is written |
| ConvertManager.Manager.PrepareWork | native/sec_fs/sec_transfer/v3/convert.go:89-123 | Leaves the root content alone and ends before verification or idle |
| ConvertManager.Manager.CheckWork | native/sec_fs/sec_transfer/v3/convert.go:120-136 | Commits only what verification passed; records a failure otherwise |
| ConvertManager.Manager.RecordVerificationFailure | native/sec_fs/sec_transfer/v3/convert.go:180-193 | Without faults the root's marker becomes one that asks for attention, and nothing else changes |
| ConvertManager.Manager.CommitConvertRename | native/sec_fs/sec_transfer/v3/convert.go:195-225 | Without an error backup holds the old root, root the old work, and work is gone |
| ConvertManager.Manager.MoveRootAway | native/sec_fs/sec_transfer/v3/convert.go:196-211 | First half of the commit: the root is at the backup, marked there, and the work tree untouched |
| ConvertManager.Manager.InstallWork | native/sec_fs/sec_transfer/v3/convert.go:212-220 | Second half: the work tree is the root, the backup untouched |
| ConvertManager.Manager.CleanUpMarkers | native/sec_fs/sec_transfer/v3/convert.go:222-224 | Ignores failures; touches no content; without faults both markers are gone |
| ConvertManager.Manager.RecoverConvert | native/sec_fs/sec_transfer/v3/convert.go:243-271 | Acts on the decision the disk determines; whatever fails, its answer tells what became of the disk: none and error that nothing did, run again that the work and the root's marker are gone, renames finished that the work tree is at the root and what it replaced at the backup, completed that at most markers went; without faults disk and answer are exactly the outcome |
| ConvertManager.Manager.FindConvertMarkers | native/sec_fs/sec_transfer/v3/convert.go:273-304 | Succeeds exactly if both patterns are well formed and every marker file in the root and the directories they find is listable; lists the first marker first and every operation that has one |
| ConvertManager.Manager.ListConvertMarkers | native/sec_fs/sec_transfer/v3/marker.go:212-242 | Lists exactly the convert markers of one directory, or fails exactly if a file in it is unreadable or misnamed |
| ConvertManager.Manager.RecoverFromMarker | native/sec_fs/sec_transfer/v3/convert.go:306-381 | The same for one marker |
| ConvertManager.Manager.ActOnMarker | native/sec_fs/sec_transfer/v3/convert.go:318-380 | The same for a valid marker, phase by phase |
| ConvertManager.Manager.DiscardWork | native/sec_fs/sec_transfer/v3/convert.go:319-338 | Says run again only if the work directory and the marker are gone and nothing else, which without faults they are |
| ConvertManager.Manager.RenameBothAgain | native/sec_fs/sec_transfer/v3/convert.go:340-353 | Without faults both renames are done and the markers gone |
| ConvertManager.Manager.RecoverRename | native/sec_fs/sec_transfer/v3/convert.go:355-367 | Finishes the second rename or only tidies up, as decided, and says which |
| ConvertManager.Manager.FinishRecoveredWorkRename | native/sec_fs/sec_transfer/v3/convert.go:422-433 | Says the renames are finished only if the work tree is at the root, the backup kept; without faults the markers are gone too |
| ConvertManager.Manager.SortedNames | native/sec_fs/sec_transfer/v3/marker.go:212-242 | A directory listing holds each name once, in order |
| Verification.Differences.Add | native/sec_fs/sec_transfer/v3/verify.go:196-209 | Counts every difference and keeps the smallest paths, sorted, up to the bound |
| Order.LeqMeans | native/sec_fs/sec_transfer/v3/verify.go:196-209 | The order of the samples: a prefix first, else the smaller character where two paths first differ |
| Verification.SamplesAreSmallest | native/sec_fs/sec_transfer/v3/verify.go:196-209 | A path that was found but is not among the samples is not before any sample |
| Verification.EmptyReportIsAgreement | native/sec_fs/sec_transfer/v3/verify.go:39-168 | For a root none of whose own paths leads elsewhere a report without differences means exactly that looking up every walked source entry in the work tree finds its kind and bytes, and looking up every walked work entry in the source its kind |
| Verification.ReportCounts | native/sec_fs/sec_transfer/v3/verify.go:39-222 | Each of the five counts is the number of entries of its kind: directories and files not found as such, files with other bytes, and the same for entries of the work tree; truncated exactly if one is above sixteen |
| Verification.ManifestIsJoin | native/sec_fs/sec_transfer/v3/verify.go:252-254 | Reported paths are joined with slashes |
| Trees.SameTreeIsFoundAlike | native/sec_fs/sec_transfer/v3/verify.go:39-168 | Where the path parser leaves the plain side's names whole the trees are the same exactly if these lookups agree; where it leaves the root's names whole they are the same exactly if both hold |
| Trees.WalksVisit | native/sec_fs/sec_transfer/v3/manager.go:633-638 | The walks of verification leave out just the entries with a component that is one of the two reserved names or has one of the two infixes as a slice, and on the plain side those in a directory that holds a configuration file |
| Trees.AgreedIsComplete | native/sec_fs/sec_transfer/v3/verify.go:39-168 | After agreement, with plain names, every source entry not left out is in the work tree with its bytes, and the work tree holds no other |
| Trees.ContainsIsHolds | native/sec_fs/sec_transfer/v3/manager.go:636-637 | The substring test finds a text exactly where it is a slice |
| Trees.BackslashPasses | native/sec_fs/sec_transfer/v3/verify.go:42-51 | A plain file named with a backslash beside the same file in a directory passes verification though the work tree lacks it |
| Verification.CompareSource | native/sec_fs/sec_transfer/v3/verify.go:41-77 | The source walk reports exactly the directories and files whose lookup does not find them and the files found with another digest; a path that is refused there, or by the source itself when a file is opened, ends it |
| Verification.CompareWork | native/sec_fs/sec_transfer/v3/verify.go:78-100 | The work walk reports exactly the directories and files whose lookup in the source does not find them; a refused path ends it |
| Verification.VerifyTrees | native/sec_fs/sec_transfer/v3/verify.go:39-168 | For a root none of whose own paths leads elsewhere: pass only if the lookups agree, a mismatch only if they do not, with the report of the two walks, and never pass with a directory whose path is refused; no verdict if a plain name is refused as a path; if nothing fails there is no verdict only for a refused path, and with plain names in the root pass whenever the lookups agree; a pass with plain names on the plain side means that every source entry not left out is in the work tree with its bytes |
| Verification.ReportError | native/sec_fs/sec_transfer/v3/verify.go:211-222 | An error exactly if one of the five counts is not zero |
| Ciphers.XorBlocks | native/sec_fs/crypto_data/algorithm_impl/aes_xts/context.go:162-183 | Block by block, byte i is XORed with the key byte of position pos + i, for every position and length |
| Ciphers.GenerateKeystream | native/sec_fs/crypto_data/algorithm_impl/aes_xts/context.go:186-217 | Enciphering a tweaked block of zeros gives the key bytes of the sixteen file positions of that block |
| Ciphers.XtsInput | native/sec_fs/crypto_data/algorithm_impl/aes_xts/context.go:162-217 | Byte i of block n: the second key enciphers the sixteen octets that stand for n, least first, and the first key the result, for every int64 position |
| Ciphers.TweaksDiffer | native/sec_fs/crypto_data/algorithm_impl/aes_xts/context.go:186-192 | With an injective cipher two blocks have different tweaks |
| Ciphers.CtrInput | native/sec_fs/crypto_data/algorithm_impl/aes_ctr/context.go:149-204 | Byte i of block n: the key enciphers the sixteen octets that stand for n, least last (section 6.5 of NIST SP 800-38A) |
| Ciphers.CtrBlocksDiffer | native/sec_fs/crypto_data/algorithm_impl/aes_ctr/context.go:149-204 | With an injective cipher two blocks have different key bytes |
| Ciphers.Rc4Input | native/sec_fs/crypto_data/algorithm_impl/rc4/context.go:36-67 | Byte p is byte p of the generator |
| Ciphers.ChaChaInput | native/sec_fs/crypto_data/algorithm_impl/chacha20/context.go:141-163 | Byte i of block n is byte i of the ChaCha20 block with counter n, and n fits 32 bits |
| Ciphers.CounterIncrements | native/sec_fs/crypto_data/algorithm_impl/aes_ctr/context.go:149-204 | Incrementing a 128-bit big-endian counter of an int64 block number never carries out of its low 64 bits: it is the next block's counter (section 6.5 of NIST SP 800-38A) |
| Ciphers.IncrementBigEndian | native/sec_fs/crypto_data/algorithm_impl/aes_ctr/context.go:149-176 | Byte-wise increment is plus one on the number, as long as it fits |
| Ciphers.CtrStream.XORKeyStream | native/sec_fs/crypto_data/algorithm_impl/aes_ctr/context.go:165-175 | The library stream continues from byte to byte across blocks |
| Ciphers.XorKeystreamQuick | native/sec_fs/crypto_data/algorithm_impl/aes_ctr/context.go:182-204 | The block-by-block form XORs byte i with key byte pos + i |
| Ciphers.XorKeystream | native/sec_fs/crypto_data/algorithm_impl/aes_ctr/context.go:149-176 | The library form, with its discarded prefix, does the same for every length |
| Ciphers.XorChaCha | native/sec_fs/crypto_data/algorithm_impl/chacha20/context.go:141-163 | Byte i is XORed with key byte pos + i of section 2.4 of RFC 8439 counted from counter 0, up to 2^38 bytes |
| Ciphers.CounterFits | native/sec_fs/crypto_data/algorithm_impl/chacha20/context.go:141-163 | Below 2^38 the cut to a 32-bit counter loses nothing |
| Ciphers.CipherState.EncryptAt | native/sec_fs/crypto_data/algorithm_impl/rc4/context.go:36-67 | Hit or miss, the data is XORed with the keystream of its own position; the kept cipher stays at its recorded position and a miss leaves it alone |
| Ciphers.XorAtTwice | native/sec_fs/crypto_data/algorithm_impl/aes_xts/context.go:66-97 | Decrypting what was encrypted at a position gives it back |
| Ciphers.XorAtSplit | native/sec_fs/crypto_data/crypt_utils/chunk_processor.go:145-190 | Encrypting in pieces is encrypting the whole, for any split |
| Ciphers.Encryptor.XorInPlace | native/sec_fs/crypto_data/algorithm_impl/aes_xts/context.go:162-183 | For each of the four ciphers the in-place operation is XOR with the same position-wise key |
| ChunkProcessor.FillGap | native/sec_fs/crypto_data/crypt_utils/chunk_processor.go:34-76 | Appends encrypted zeros; on failure a prefix of them |
| ChunkProcessor.EncryptAndWriteInChunks | native/sec_fs/crypto_data/crypt_utils/chunk_processor.go:145-190 | Whatever the chunking and wherever a write is short, the file gets the encryption of exactly the bytes reported as written |
| ChunkProcessor.EncryptAndWriteAtInChunks | native/sec_fs/crypto_data/crypt_utils/chunk_processor.go:202-247 | The same at an offset |
| ChunkProcessor.ChunkExtends | native/sec_fs/crypto_data/crypt_utils/chunk_processor.go:145-190 | One more chunk extends what was written, with no seam |
| FileContext.Context.Read | native/sec_fs/crypto_data/algorithm_impl/aes_xts/context.go:66-74 | Returns the plain bytes at the position if it seeks first or the cursor is in step, and says where the cursor is then |
| FileContext.Context.EnsureAppendGap | native/sec_fs/crypto_data/algorithm_impl/aes_xts/context.go:221-244 | A gap reads as zeros |
| FileContext.Context.Write | native/sec_fs/crypto_data/algorithm_impl/aes_xts/context.go:78-97 | The plain content becomes the old one overwritten at the position; even an empty write past the end extends it |
| FileContext.Context.Seek | native/sec_fs/crypto_data/algorithm_impl/aes_xts/context.go:100-122 | Moves position and cursor together, or neither |
| FileContext.Context.Truncate | native/sec_fs/crypto_data/algorithm_impl/aes_xts/context.go:135-152 | The plain content is cut or padded with zeros; the cursor moves exactly if the file grows |
| FileContext.Context.ReadAt | native/sec_fs/crypto_data/algorithm_impl/aes_xts/context.go:247-262 | Returns the plain bytes at the offset and leaves the position |
| FileContext.Context.WriteAt | native/sec_fs/crypto_data/algorithm_impl/aes_xts/context.go:266-293 | Overwrites at the offset and leaves the position; says where the cursor is then |
| FileContext.PlainOfWritten | native/sec_fs/crypto_data/algorithm_impl/aes_xts/context.go:78-97 | Writing encrypted bytes into the store is writing plain bytes into the plain content |
| FileHistory.Replay | native/sec_fs/crypto_data/algorithm_impl/aes_xts/context.go:66-293 | Every history through AES-XTS gets the answers of an ordinary byte file, and through the other ciphers every history in which each Read finds the cursor at the position, the cursor being a function of the calls before; a fault ends it only if the storage below failed |
| FileHistory.Perform | native/sec_fs/crypto_data/algorithm_impl/aes_ctr/context.go:60-140 | One call behaves as on an ordinary file and leaves the cursor where the function of the history has it; only a Read needs the cursor in step |
| FileHistory.WrittenIsRead | native/sec_fs/crypto_data/algorithm_impl/aes_xts/context.go:247-293 | What an ordinary file is: written bytes are read back, those around them stay, a gap reads as zeros |
| FileHistory.OffsetsFit | native/sec_fs/crypto_data/algorithm_impl/chacha20/context.go:141-163 | Every int64 offset is in range, for ChaCha20 up to 2^38, and no read through AES-XTS goes astray |
| FileHistory.SeekMeans | native/sec_fs/crypto_data/algorithm_impl/aes_xts/context.go:100-122 | The same place by offset from the start, from here and from the end; two seeks from here add up |
| Adapter.Adapter.GetBlock | native/sec_fs/crypto_data/crypt_utils/random_access_adapter/adapter.go:45-80 | A block comes from the cache or is loaded, without changing what is seen |
| Adapter.Adapter.Read | native/sec_fs/crypto_data/crypt_utils/random_access_adapter/adapter.go:82-115 | Returns what a plain byte array holds at the position |
| Adapter.Adapter.Write | native/sec_fs/crypto_data/crypt_utils/random_access_adapter/adapter.go:117-141 | The array is overwritten at the position; the cache stays coherent exactly if the data is not empty, the position is inside the file, or its last block is dirty |
| Adapter.Adapter.Seek | native/sec_fs/crypto_data/crypt_utils/random_access_adapter/adapter.go:143-160 | The position moves to the target or stays |
| Adapter.Adapter.FlushBlock | native/sec_fs/crypto_data/crypt_utils/random_access_adapter/adapter.go:171-194 | A flushed block reaches the file below and the bytes seen do not change |
| Adapter.Adapter.ReadAt | native/sec_fs/crypto_data/crypt_utils/random_access_adapter/adapter.go:196-205 | Returns what the array holds at the offset and leaves the position; an end-of-file answer with less than there is means that the storage failed |
| Adapter.Adapter.WriteAt | native/sec_fs/crypto_data/crypt_utils/random_access_adapter/adapter.go:207-213 | Overwrites at the offset and leaves the position |
| Adapter.Adapter.Sync | native/sec_fs/crypto_data/crypt_utils/random_access_adapter/adapter.go:247-260 | Afterwards the file below is exactly the array, whatever order the blocks were flushed in |
| Adapter.Adapter.Close | native/sec_fs/crypto_data/crypt_utils/random_access_adapter/adapter.go:162-169 | Closing writes everything back first |
| Adapter.Adapter.Truncate | native/sec_fs/crypto_data/crypt_utils/random_access_adapter/adapter.go:217-245 | The array seen is cut or padded with zeros; the cache stays coherent exactly if the file below is not longer than the new size and, if shorter, the new last block is or becomes dirty |
| BlockCache.CutKeepsCoherent | native/sec_fs/crypto_data/crypt_utils/random_access_adapter/adapter.go:217-245 | The same for the cache as a value |
| BlockCache.CutIsNotWrittenBack | native/sec_fs/crypto_data/crypt_utils/random_access_adapter/adapter.go:217-245 | Where that condition fails no order of flushing makes the file below as long as the array |
| AdapterHistory.Replay | native/sec_fs/crypto_data/crypt_utils/random_access_adapter/adapter.go:45-260 | Any history of reads, seeks, writes, write-backs and new sizes that meet their condition gets through the cache the answers of an ordinary byte file, and after a write-back that file is below; a fault ends it only if the storage below failed |
| BlockCache.FlushKeepsSeen | native/sec_fs/crypto_data/crypt_utils/random_access_adapter/adapter.go:171-194 | Flushing any one block changes no byte that is seen and leaves one block fewer dirty |
| BlockCache.WriteKeepsCoherent | native/sec_fs/crypto_data/crypt_utils/random_access_adapter/adapter.go:117-141 | A write keeps the cache coherent, with the exact condition for an empty one |
| BlockCache.LoadKeepsCoherent | native/sec_fs/crypto_data/crypt_utils/random_access_adapter/adapter.go:45-80 | Loading blocks changes no byte that is seen |
| BlockCache.CleanCacheIsFile | native/sec_fs/crypto_data/crypt_utils/random_access_adapter/adapter.go:247-260 | With nothing dirty the bytes seen are the file below |
| WalkSpec.WalkReturnsAllowed | native/sec_fs/sec_dir_walker.go:91-319 | A walk that reads each waiting directory's own entries, or reports that it cannot, and reports no error returns, as a multiset, what the recursive definition of allowed entries allows |
| WalkSpec.AllowedOnce | native/sec_fs/sec_dir_walker.go:243-319 | No entry is allowed twice |
| WalkSpec.CompleteWalk | native/sec_fs/sec_dir_walker.go:91-319 | Such a whole walk without errors returns every allowed entry exactly once, by its joined path |
| WalkSpec.SmallTreeHasNoErrors | native/sec_fs/sec_dir_walker.go:243-330 | If names decrypt, every directory entered can be opened and the tree is within the pending limit, such a walk reports no error |
| WalkOptions.AllowedIsWanted | native/sec_fs/sec_dir_walker.go:243-319 | An entry is allowed exactly if the options ask for it: on the way down to it every name deciphers, is not ignored and, unless hidden names are included, does not begin with a dot; it is no deeper than the limit, at the top if not recursive, and of a kind that is not skipped |
| WalkOptions.WalkObeysOptions | native/sec_fs/sec_dir_walker.go:243-319 | Every entry answered, also by a walk with errors: no directory where directories are skipped, no file where files are, no hidden component, nothing too deep; without errors just what the options ask for |
| WalkOptions.ReturnsOnlyAllowed | native/sec_fs/sec_dir_walker.go:91-319 | Also a walk with errors returns nothing but allowed entries, and none too often |
| WalkOptions.UnreadNameIsReported | native/sec_fs/sec_dir_walker.go:252-262 | Where a walk comes to an entry that is not ignored and whose name does not decipher, it reports an error |
| WalkOptions.RefusedWhenFull | native/sec_fs/sec_dir_walker.go:267-330 | A directory is refused exactly if as many wait as asked for, at most 4096, 1024 by default |
| WalkOptions.StartsOverExactly | native/sec_fs/sec_dir_walker.go:457-483 | A walk whose directory is begun again returns that and what waits: it starts over exactly if it stands at its start and nothing allowed waits |
| WalkLookup.RunIsComplete | native/sec_fs/sec_dir_walker.go:193-240 | A walk that remembers directories by their joined paths, each parsed and enciphered again when its turn comes, returns every allowed entry exactly once or reports an error, if the joined path of every directory it enters is refused or leads to that directory |
| WalkLookup.WalkedRightIffHonest | native/sec_fs/sec_dir_walker.go:193-240 | For every name: in all trees with it at the top such a walk is complete or reports an error, exactly if the name as a path is refused or leads to itself; any other name loses what is below it, or is entered as the top itself |
| WalkLookup.RunIsEvents | native/sec_fs/sec_dir_walker.go:193-240 | Under that condition on paths such a walk gives just the events of the walk over the directories themselves, then, after one that cannot be opened, the answers of a walker without a handle |
| WalkLookup.HonestOpens | native/sec_fs/sec_dir_walker.go:285-290 | A directory whose joined path is not refused and does not lead elsewhere is opened as itself; a refused one is an error |
| WalkLookup.LookupFindsDirectory | native/sec_fs/sec_dir_walker.go:205-216 | Opening a stored path finds a directory exactly if entering its names one after the other leads to one, and never a file |
| WalkLookup.NameIsHonest | native/sec_fs/sec_dir_walker.go:205-216 | A name without a separator, drives and scheme-shaped names included, is refused or leads to itself everywhere |
| WalkLookup.TangledLosesFile | native/sec_fs/sec_dir_walker.go:205-216 | A directory named with a backslash beside the directory that the parser takes it for makes a walk of everything return one file twice and another never, without an error |
| NamePaths.StoreChild | native/sec_fs/sec_root.go:45-72 | Below a directory found by its path the joined path leads to the entry that was read exactly if the name has no separator, is no drive and, at the top, is not shaped like a scheme or a drive, and the directory's path is not the one that anything below turns into a server name |
| NamePaths.JoinedLeadsBack | native/sec_fs/sec_root.go:466-497 | A joined view path leads back to its names exactly if they are such names |
| NamePaths.StoreTargetOfView | native/sec_fs/sec_root.go:45-72 | The stored names looked up for a view path are the enciphered names of the parsed path, or it is refused |
| Walker.Walker.Next | native/sec_fs/sec_dir_walker.go:91-139 | Answers the first event still to come and leaves the others; a directory that cannot be opened is answered with its error, and then the walker has no handle; at the end, end of file for ever |
| Walker.Walker.NextBatch | native/sec_fs/sec_dir_walker.go:356-419 | Takes the next entries up to the size, as repeated single answers would; an error drops what the call had collected, and one from opening a directory leaves the walker without a handle |
| Walker.BatchIsNextRepeated | native/sec_fs/sec_dir_walker.go:356-419 | A batch is the first results of the same sequence, so any mix of the two gives the same order |
| Walker.Walker.LoadNextBatch | native/sec_fs/sec_dir_walker.go:169-189 | Reading ahead changes nothing still to come, or fails with the next event, a directory that cannot be opened |
| Walker.Walker.OpenDir | native/sec_fs/sec_dir_walker.go:84-87 | Converts, checks and opens a view path: what is found is what the stored names lead to below the root |
| Walker.Walker.LoadNextDirectory | native/sec_fs/sec_dir_walker.go:193-240 | Opening the last waiting directory by its joined path changes nothing still to come; if it cannot be opened that was the next event, and the walker is left without a handle |
| Walker.Walker.ProcessEntry | native/sec_fs/sec_dir_walker.go:243-319 | Gives the verdict of the specification on the entry, and puts a directory to be entered on the stack unless that is full |
| Walker.Walker.TakeEntry | native/sec_fs/sec_dir_walker.go:124-137 | The events still to come are this entry's event and the rest, and the unread work shrinks |
| Walker.Walker.HasNext | native/sec_fs/sec_dir_walker.go:422-454 | Reads ahead without losing an event, unless the next directory cannot be opened: then it answers false and the error is lost; otherwise false only if nothing is left or the walker is closed or without a handle |
| Walker.Walker.Close | native/sec_fs/sec_dir_walker.go:333-353 | Drops the open directory, the entries read ahead and the waiting directories; Next and NextBatch then answer that the walker is closed |
| Walker.Walker.Reset | native/sec_fs/sec_dir_walker.go:457-483 | Begins the current directory again and keeps what waits; a walker that does not recurse starts over |
| PathClean.OnePassIsSplitThenClean | native/sec_fs/sec_utils/path_utils_easy.go:571-614 | The one-pass loop computes split first, clean afterwards |
| PathClean.CleanNormal | native/sec_fs/sec_utils/path_utils_easy.go:591-611 | Cleaning gives a leading run of ".." and then names |
| PathClean.CleanFixesNormal | native/sec_fs/sec_utils/path_utils_easy.go:591-611 | Cleaning a normal form changes nothing |
| PathClean.CleanKeepsMeaning | native/sec_fs/sec_utils/path_utils_easy.go:591-611 | From every directory the cleaned components lead where the components lead |
| PathClean.NormalFormIsCanonical | native/sec_fs/sec_utils/path_utils_easy.go:571-614 | Two normal forms that mean the same from every directory are equal |
| PathClean.SplitOfJoin | native/sec_fs/sec_utils/path_utils_easy.go:1087-1124 | Splitting joined parts gives them back |
| PathParser.FindSchemeEnd | native/sec_fs/sec_utils/path_utils_easy.go:1056-1084 | Finds the colon after a word of two or more scheme characters, exactly if there is one |
| PathParser.FindUnc | native/sec_fs/sec_utils/path_utils_easy.go:845-889 | Recognises a server name or an extended-length path exactly; other texts with the prefix of the latter are relative |
| PathParser.ExtractHost | native/sec_fs/sec_utils/path_utils_easy.go:910-981 | Drive, absolute or relative: host, remainder and kind |
| PathParser.SplitAndClean | native/sec_fs/sec_utils/path_utils_easy.go:573-614 | The loop gives the cleaned components and the first separator |
| PathParser.ParseOnce | native/sec_fs/sec_utils/path_utils_easy.go:541-633 | Host, separator, marked parts and kind of every local path |
| PathParser.ParsePath | native/sec_fs/sec_utils/path_utils_easy.go:478-512 | Refuses a drive inside and a drive-relative path, and otherwise gives the parsed path |
| PathParser.ParsedIsNormalAndMeansTheSame | native/sec_fs/sec_utils/path_utils_easy.go:541-633 | Parsed names are in normal form, hold no drive, and mean what the text means |
| PathParser.KindFromText | native/sec_fs/sec_utils/path_utils_easy.go:910-981 | Host and kind from the text: absolute exactly if it begins with a slash or a drive and a separator |
| PathParser.SeparatorFromText | native/sec_fs/sec_utils/path_utils_easy.go:571-586 | The separator is the first one in the text, else the system's |
| PathParser.OtherFormsFromText | native/sec_fs/sec_utils/path_utils_easy.go:649-904 | Of another form are exactly the texts that begin with a scheme word and a colon, or with two backslashes as a server name or extended-length path |
| PathParser.SameNamesIffSameMeaning | native/sec_fs/sec_utils/path_utils_easy.go:541-633 | Two texts get the same names exactly if they mean the same from every directory |
| PathParser.BuildPath | native/sec_fs/sec_utils/path_utils_easy.go:1087-1124 | Prints a leading separator for an absolute path and the non-empty parts joined |
| PathParser.EncodePath | native/sec_fs/sec_utils/path_utils_easy.go:242-302 | Host and printed parts |
| PathParser.ParseOfEncode | native/sec_fs/sec_utils/path_utils_easy.go:242-302 | Parsing the printed path gives host, parts and kind back exactly if it is not a relative path that is empty or whose first name looks like a drive or a scheme |
| PathParser.EncodeIsStable | native/sec_fs/sec_utils/path_utils_easy.go:1130-1135 | Printing the re-parsed path prints the same text |
| PathContains.ContainsPathInfo | native/sec_fs/sec_utils/path_utils_easy.go:378-441 | The test with its loops is the stated prefix relation |
| PathContains.AbsoluteContainment | native/sec_fs/sec_utils/path_utils_easy.go:378-441 | For absolute paths: same drive and the names continue the names |
| PathContains.RelativeContainment | native/sec_fs/sec_utils/path_utils_easy.go:378-441 | For relative paths: same drive and the names continue the names, but one without names contains only another |
| PathContains.ContainmentIgnoresKind | native/sec_fs/sec_utils/path_utils_easy.go:378-441 | A relative path counts as contained in an absolute one with the same names |
| PathContains.StaysUnder | native/sec_fs/sec_utils/path_utils_easy.go:419-437 | A continued path stays under its base from everywhere exactly if it climbs no further than the base |
| StorePath.ConvertParts | native/sec_fs/sec_path.go:103-117 | Each component is converted, special ones kept, the first failure ends it |
| StorePath.ConvertPath | native/sec_fs/sec_path.go:97-121 | Parsed, converted component by component, printed |
| StorePath.ViewPathToStorePath | native/sec_fs/sec_path.go:91-122 | With no cipher unchanged, otherwise converted |
| StorePath.StorePathToViewPath | native/sec_fs/sec_path.go:141-172 | The way back, alike |
| StorePath.ViewStoreView | native/sec_fs/sec_path.go:91-172 | There and back gives the cleaned view path, for every lawful cipher |
| StorePath.StorePathsDiffer | native/sec_fs/sec_path.go:91-122 | Different cleaned view paths get different store paths |
| StorePath.IsSafeRelativeStorePath | native/sec_fs/sec_root.go:89-105 | Safe exactly if empty, or relative without drive and only plain names |
| StorePath.ContainmentAgrees | native/sec_fs/sec_root.go:59-69 | After the safety test the containment test fails only for a root without components |
| StorePath.ViewPathToStorePathCheck | native/sec_fs/sec_root.go:45-72 | Succeeds exactly if the store path is safe and the root has components or nothing is added, and with unsafe paths allowed if it parses; says traversal exactly if only the safety failed |
| StorePath.FullPathFromRelativeStorePath | native/sec_fs/sec_root.go:74-87 | The same for a given store path |
| StorePath.CheckedStaysUnderRoot | native/sec_fs/sec_root.go:59-71 | The full path is the root's parts and then names only, and from everywhere leads below the root |
| StorePath.CheckedComesBack | native/sec_fs/sec_root.go:61-62 | For an absolute root the text handed to the system parses to that very path |
| StorePath.CheckAccepts | native/sec_fs/sec_root.go:55-57 | Accepted exactly if the view path cleans to a relative path without ".." |
| FileReplace.Folder.ImportFile | native/sec_fs/sec_transfer/v3/manager.go:316-382 | At every crash point the destination is absent, all old or all new and what there was is kept; without faults it succeeds exactly if it may overwrite or there is nothing to, and not both the destination and a left-over backup are there; a success passes the state with both |
| FileReplace.InPlaceHasBoth | native/sec_fs/sec_transfer/v3/manager.go:369-381 | The state before the backup is deleted holds the new content and the backup of the old |
| FileReplace.Folder.MoveAside | native/sec_fs/sec_transfer/v3/manager.go:363-368 | The old content moves to the backup name; an import fails here exactly if a backup is in the way |
| FileReplace.Folder.CommitImport | native/sec_fs/sec_transfer/v3/manager.go:369-381 | The same from the moment the old content is out of the way |
| FileReplace.Folder.ExportFile | native/sec_fs/sec_transfer/v3/manager.go:396-457 | As for import; without faults it succeeds exactly if it may overwrite or there is nothing to, and no temporary file is left over; a success passes the state with a filled temporary file |
| FileReplace.Folder.CommitExport | native/sec_fs/sec_transfer/v3/manager.go:449-456 | The same from the moment the old content is out of the way |
| FileReplace.Folder.CopyFile | native/sec_fs/copy.go:89-160 | As for import, with fresh names; without faults it succeeds exactly if it may overwrite or there is nothing to, and then the folder differs in the destination only |
| FileReplace.Folder.ReplaceCopy | native/sec_fs/copy.go:142-159 | The replacing half of a copy |
| FileReplace.Folder.CommitCopy | native/sec_fs/copy.go:151-159 | The same from the moment the old content is out of the way |
| FileReplace.Folder.UniqueCopyPath | native/sec_fs/copy.go:185-202 | A name that is not taken, or none after a failure or eight names that were taken |
| FileReplace.Folder.FillTemp | native/sec_fs/sec_transfer/v3/manager.go:334-362 | Whatever fails, only the temporary name is affected |
| FileReplace.NoContentIsLost | native/sec_fs/sec_transfer/v3/manager.go:316-457 | However often a replacement is tried and interrupted, at the destination or the backup there is the first content or one of the new ones |
| RootConfig.NewPasswordOpens | native/sec_fs/password_changeable.go:126-149 | After a password change the new password, and nothing to another result, opens the same content key; hint and other fields are as before |
| RootConfig.NewHintKeepsEveryPassword | native/sec_fs/password_hint.go:93-110 | A new hint changes the answer for no password |
| RootConfig.LegacyRootStays | native/sec_fs/password_changeable.go:90-96 | A root without an envelope never gets one: after any sequence of attempts every field but the hint is as before and every password opens what it opened before |
| RootConfig.LastPasswordOpens | native/sec_fs/password_changeable.go:63-186 | After any accepted changes the last password set opens the root to the content key it was created with |
| RootConfig.OpensExactly | native/sec_fs/password_verifier.go:46-72 | A password opens a record exactly if all its fields and versions are there, the tag was made with the password, and the envelope, if any, opens |
| RootConfig.OthersAreRefused | native/sec_fs/password_changeable.go:153-186 | Without collisions a record that one password opens tells every other that it is wrong |
| RootConfig.AcceptedExactly | native/sec_fs/password_changeable.go:68-114 | A change is accepted exactly if it knows that password: a new one, not empty, only where there is an envelope; a hint up to 256 bytes |
| RootConfig.OnlyLastPasswordOpens | native/sec_fs/password_changeable.go:153-186 | After any accepted changes the last password set gets the content key and every other is wrong |
| RootConfig.OnlyFirstPasswordOpensLegacy | native/sec_fs/password_changeable.go:153-172 | A root without an envelope opens for the password its tag was made with and no other, whatever is tried on it |
| RootConfigWriter.ConfiguredRoot.Change | native/sec_fs/password_changeable.go:63-151 | At every crash point the configuration is the old record or the whole new one; the reply says which, and without faults it is committed exactly if the checks pass; a committed change does to the configuration what an undisturbed writer of the interleaving machine does, and without collisions it knew the password |
| RootConfigRuns.Changed | native/sec_fs/password_changeable.go:63-151 | From every state an undisturbed writer of the machine replaces the configuration by the whole new record, logs the change and frees the lock |
| RootConfigWriter.ConfiguredRoot.StageAndCommit | native/sec_fs/password_changeable.go:115-151 | The same for a change that passed its checks |
| RootConfigWriter.ConfiguredRoot.BuildStaged | native/sec_fs/password_changeable.go:115-145 | The staged file becomes the whole new record, or the attempt ends with the configuration untouched |
| RootConfigWriter.ConfiguredRoot.SetAll | native/sec_fs/password_changeable.go:130-145 | All fields in order into the staged file, the last write whole |
| RootConfigWriter.ConfiguredRoot.Stage | native/sec_fs/password_changeable.go:316-346 | The staged file is a copy, the configuration untouched |
| RootConfigWriter.ConfiguredRoot.Commit | native/sec_fs/password_changeable.go:348-371 | One rename replaces the record or nothing happens |
| RootConfigRuns.NoUpdateIsLost | native/sec_fs/password_changeable.go:63-151 | In every interleaving under the lock, with crashes anywhere, the configuration is the first record with all committed changes applied in order |
| RootConfigRuns.StepKeeps | native/sec_fs/password_changeable.go:74-149 | One step of one writer keeps that |
| RootConfigRuns.PasswordOpensAfterAnyRun | native/sec_fs/password_changeable.go:153-186 | And the password of the last committed change opens the root to its content key |
| RootConfigRuns.OthersRefusedAfterAnyRun | native/sec_fs/password_changeable.go:153-186 | And every other password is told that it is wrong |
| WebDavMounts.NoMountIsForgotten | native/sec_fs/sec_webdav/server.go:379-527 | In every interleaving each mount is held by a running call, recorded in a live session or has had its unmount called; none is recorded twice; the system is asked once |
| WebDavMounts.StepKeeps | native/sec_fs/sec_webdav/server.go:379-527 | One critical section or system call keeps that |
| WebDavMounts.AttachKeeps | native/sec_fs/sec_webdav/server.go:483-499 | A finished mount is recorded in its session and in no other if that session is live without one; otherwise no session has it and its own call must unmount it |
| WebDavMounts.NothingLeftWhenQuiet | native/sec_fs/sec_webdav/server.go:442-463 | With no call running and no session left every mount has had its unmount called |
| WebDavMounts.FirstAnswerStays | native/sec_fs/sec_webdav/mount.go:35-43 | The first answer of an unmount stays, so a failed one is never tried again |
| WebDavMounts.RecordedUntilUnmounted | native/sec_fs/sec_webdav/server.go:501-527 | In every run a live session loses its mount only after the system has unmounted it |
| WebDavMounts.EndedSessionsAreGone | native/sec_fs/sec_webdav/server.go:379-463 | Ending one session, those of a root, or all takes exactly those away and leaves their mounts to the call |
| WebDavMounts.AnswerIsTheSystems | native/sec_fs/sec_webdav/mount.go:35-43 | The answer kept for a mount is the system's first |
| WebDavMounts.CallsBegin | native/sec_fs/sec_webdav/server.go:465-527 | A mount is begun only for a live session without one, an unmount only of the mount it has |
| Digest.DigestState.NewNonce | native/sec_fs/sec_webdav/auth.go:317-327 | The new nonce is good now and stays so for the lifetime less a second, and is stale after the lifetime |
| Digest.DigestState.ValidNonce | native/sec_fs/sec_webdav/auth.go:374-392 | Valid and stale exactly as the window says |
| Digest.DigestState.Verify | native/sec_fs/sec_webdav/auth.go:329-372 | Accepts exactly a genuine request with a higher counter and remembers it; a refused one changes nothing |
| Digest.CountersIncrease | native/sec_fs/sec_webdav/auth.go:366-371 | Of two accepted requests with the same nonces the later has the higher counter (nc in section 3.4 of RFC 7616), unless the session was restored between them |
| Digest.NeverTwice | native/sec_fs/sec_webdav/auth.go:366-371 | While the session is not restored no accepted request is accepted again |
| Digest.RepeatAccepted | native/sec_fs/sec_webdav/auth.go:187-213 | A request that was accepted is accepted again exactly if its nonce is still good and the session was restored since every arrival with its nonces and at least its counter |
| Digest.KeysDoNotMix | native/sec_fs/sec_webdav/auth.go:366-366 | Two genuine requests share a counter exactly if they share both nonces |
| Digest.MintedNonceWindow | native/sec_fs/sec_webdav/auth.go:374-392 | A minted nonce is good exactly within the skew and lifetime around its second, and stale exactly after |
| Digest.OnlyMintedNonces | native/sec_fs/sec_webdav/auth.go:374-392 | A nonce is good exactly if it carries this key's code and was issued at most 30 seconds ahead and five minutes ago, stale exactly if it is older |
| Digest.ResponseBinds | native/sec_fs/sec_webdav/auth.go:329-364 | Without collisions a response vouches for method, address, both nonces and the counter, and for name, realm and password of the account |
| Digest.FieldsOfGenuine | native/sec_fs/sec_webdav/auth.go:329-364 | An accepted request is for this account and address, with SHA-256, quality auth, a client nonce, a counter of eight hexadecimal digits that is not zero and a response of 64 (section 3.4 of RFC 7616) |
| Digest.CountIsNumber | native/sec_fs/sec_webdav/auth.go:348-354 | The counter is the number its hexadecimal digits, of either case, spell |

## Left out

- Adapter.Adapter.Write: after a failed write only the position, the size and the file below are promised; blocks patched before the failure stay in the cache.
- Walker: the start path is taken as already joined and cleaned, since the joining itself cleans other spellings; a start path that names a file fails when it is opened, where the code fails when it reads.
- Walker.Walker.constructor: asks that no joined path of a directory to be entered leads to another place; without that a walk may lose entries or never end, as `WalkLookup.WalkedRightIffHonest` shows, and its methods promise nothing.
- WalkLookup.WalkedRightIffHonest: speaks of names at the top of a tree; below it the condition of `RunIsComplete` is on the joined path, place by place.
- NamePaths, WalkLookup, Trees: paths are those of a system whose separator is '/', with entry names that hold none.
- Verification.VerifyTrees: of an encrypted root with an entry whose joined path leads to another, any verdict is allowed; what a walk of it finds is not followed.
- Walker: failures of `entry.Info` and a directory that changes during the walk are not modelled.
- PathParser: URI, UNC and extended-length forms are recognised as another form and not parsed further.
- PathContains.StaysUnder: speaks of directories deep enough to climb from; at a file system root ".." stays at the root.
- StorePath: URI and UNC view paths end in an error, where the code would go on to convert their components.
- Symbolic links, file modes, chmod and syncing beyond "may report an error after the change" are not modelled.
- Renaming onto an existing empty directory, which some systems allow, is taken to fail.
- ConvertManager: the two convert functions are one method with a kind, and so are the two verify functions, because they touch the disk in the same order.
- ConvertManager: a marker that is cut short, of another version or not JSON is one kind of unreadable file.
- ConvertManager: the import marker lies in the work directory and appears there as a file of another operation; the export marker in the root is modelled, under an id made from the conversion's, where the code draws a new one. `CleanUnfinishedImportExport` is not modelled.
- Glob: on Windows a backslash in a pattern is a separator and escapes nothing; that meaning is not modelled, nor directories whose listing fails, which the search passes over.
- ConvertRecovery: convergence is for a conversion that started on a disk without convert markers; preservation is for any disk.
- Verification: digests are compared as values of a collision-free function.
- FileContext: the file operations of the four cipher contexts are one class, because they differ only in the cipher and in whether a read seeks first.
- FileContext.Context.Seek: errors of the backing file's own seek are not modelled.
- FileContext: after a gap fill that failed the recorded size is behind the file; the contracts say so and the histories end there.
- FileReplace: directories as destinations, making parent directories and the progress callbacks are not modelled.
- FileReplace: a destination that is itself named like a random temporary name is excluded.
- RootConfig: the derivation parameters are one field; the older spelling of their group, and the encoding and fixed lengths of values, are not modelled.
- RootConfig: `Lawful` asks that a sealed key opened with any key gives what was sealed or nothing.
- RootConfigRuns: the lock is released when its holder dies; the waiting time is not modelled.
- WebDavMounts: listeners, credentials and persistent session records are not modelled; only mounts and sessions are.
- AdapterHistory.Replay: an empty write past the end, and a new size whose condition does not hold, end a history; a write-back may lose them.
- Digest: reading the Authorization header into fields is not modelled; a request carries its fields.
- HTTP serving, exported bindings, registries, options and command lines would only add easy members.
