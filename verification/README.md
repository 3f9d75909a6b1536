# unmask, verified

unmask stands in front of a web site and asks browsers for a proof of work.  What its browser
script mints, its nginx module has to accept; what its daemon bans, the module has to refuse.
This project models the parts that carry those promises in Dafny and proves them:

* the browser's proof of work: a hand-written UTF-8 encoder, a SHA-256 hasher that keeps a
  midstate and one buffer across nonces, two solver loops, the `_bv` list a roaming client
  accumulates, and the whole way from a challenge to the pass (`Utf8`, `Sha256`,
  `LeadingZeros`, `PowHasher`, `PowSolve`, `BvList`, `PowRoundTrip`);
* the pass cookie: Cookie-header scanning, entry decoding, overflow-guarded numbers, the
  verifier with its shared budget, and what a pass proves (`Numerals`, `BvParser`,
  `EntrySearch`, `PassCookie`, `PassMeaning`);
* the JA4 fingerprint: the ClientHello parser, the messages it accepts, its inverse, the
  string builder, the canonicity of the result with its exact condition, and what its
  characters say (`Ja4Parser`, `Ja4Grammar`, `ClientHello`, `Ja4Build`, `Ja4Canonical`,
  `Ja4Limits`, `Ja4Meaning`);
* the ban list: line rules, in-place parse, sort, search, four-level lookup, the
  stat/open/reload watch, and what a file means to a client (`BanLines`, `BanList`,
  `BanLookup`, `BanReload`, `AddressBits`, `BanMeaning`);
* the escaping of the original URI (`OrigEscape`), the static OCI registry publisher
  (`OciRegistry`, `OciPublish`), the supervisor (`Supervisor`) and the wait for a database
  (`DbWait`).

`Wrappers`, `Bytes` and `Sorting` hold what several of them share.

Each loop or method of the original that changes things step by step is a Dafny method
proved against a specification written independently of it (a split on separators, the
padded message of RFC 6234, a scan of the file's lines, the crash history); the lemmas then
prove properties of those specifications over every input, every run or every history, and
say what they mean in terms that name none of their functions: texts as strings, numbers read
digit by digit, addresses bit by bit, a run by what happens in its rounds.

What lies outside is a parameter, and every statement holds for all its values: the
SHA-256 compression function, SHA-256 as the fingerprint uses it, HMAC, the CIDR decoder,
the JSON readers and the digest function of the registry, the clock, the file system's
answers, the signals, the database.  `qsort` is used only through "a sorted permutation".
Machine integers are unbounded with the original's width checks written out; bit operations
on disjoint ranges are written as `/`, `%` and `+`.

Where a promise needs a condition, the condition is proved to be the right one, or to be needed:

* `Ja4Limits.CanonicalIsExact`: on the bytes of any well-formed ClientHello, no hash shows the
  order of its cipher suites and extensions, or any GREASE, if and only if the GREASE-free
  ciphers fit the parser's capacity or repeat one value; the extension types fit or cannot be
  told apart in the hash; all supported_versions extensions show one version; all ALPN extensions
  that name a protocol give the same two characters; and any two signature_algorithms lists
  read the same in either order as far as they are kept.  A hello without repeated types and
  within the capacities meets it (`Ja4Canonical.DistinctAgrees`).
* `BvList.MintedTokenIsExact`: the page also mints a token when its search found nothing; it
  is accepted if and only if some nonce in reach meets the difficulty, or nonce 0 happens to
  answer the other seed.
* `OciPublish.IndexFileIsExact`, `DishonestRunBreaksTag`, `DishonestChildStaysIncomplete`: the
  descriptors a run reads have to be honest about what is an index.  A manifest filed as an
  index leaves every tag complete if and only if no visible tag's index has it as a child; and
  an index whose child is a published index called a manifest is never served completely.
* `BanLookup.FitsIsExact`: a client whose address text is empty or longer than 80 bytes, or
  whose address and fingerprint do not fit the 256-byte key buffer, is answered "no ban" on
  every file, also where its address alone is banned; for all other clients the answer is
  the file's.
* `BanReload.SameIdentityIsMissed`: freshness needs versions to differ in mtime, size or
  inode; two that do not are a run on which the second is never read.

## Model

| member | source | states |
|---|---|---|
| `Utf8.Utf8Bytes` | admin/assets/static/challenge.js:1510-1531 | the encoder's output is the UTF-8 of the string's scalar values, surrogate pairs joined and unpaired surrogates replaced by U+FFFD |
| `Utf8.PushUnit` | admin/assets/static/challenge.js:1513-1528 | one turn pushes the encoding of the next scalar and takes one or two units |
| `Utf8.DecodeEncodeAll` | admin/assets/static/challenge.js:1514-1528 | the decoder of RFC 3629 reads back exactly the scalars that were encoded |
| `Utf8.EncodeAllDecode` | admin/assets/static/challenge.js:1514-1528 | the decoder accepts nothing but encodings: no overlong or surrogate forms |
| `Utf8.Utf8Meaning` | admin/assets/static/challenge.js:1510-1531 | bytes decode to the string's text if and only if they are the encoder's output |
| `Utf8.Utf8Concat` | admin/assets/static/challenge.js:1569 | encoding in two pieces is encoding the whole unless the cut splits a surrogate pair |
| `PowHasher.PowMessageParts` | admin/assets/static/challenge.js:1558-1569 | the hashed text is the encoded "seed:" followed by the decimal digits, whatever the seed ends in |
| `Sha256.BlocksResume` | admin/assets/static/challenge.js:1572-1573 | hashing can resume from the midstate after any whole number of blocks |
| `Sha256.ShortPadBytes` | admin/assets/static/challenge.js:1584-1590 | under 2^29 bytes the padding is 0x80, zeros and a 32-bit length |
| `PowHasher.PadMeans` | admin/assets/static/challenge.js:1584-1590 | the padded message is the message, 0x80, the fewest zeros and the length in bits as a 64-bit number |
| `Sha256.InitIsRoots` | admin/assets/static/challenge.js:1571 | the initial state is the fractional bits of the square roots of the first eight primes |
| `PowHasher.CompressBlocks` | admin/assets/static/challenge.js:1572 | compressing block after block in place is the chained compression of the prefix |
| `PowHasher.Midstate` | admin/assets/static/challenge.js:1570-1572 | the kept state is the chain over the whole blocks of the prefix |
| `PowHasher.NewBuffer` | admin/assets/static/challenge.js:1573-1576 | the buffer starts with the prefix tail and has room for sixteen digits and the padding |
| `PowHasher.FillDigits` | admin/assets/static/challenge.js:1579-1581 | the digit buffer holds the decimal numeral backwards, in at most sixteen places |
| `PowHasher.PadTail` | admin/assets/static/challenge.js:1584-1590 | what is left at the head of the buffer is the tail of the padded message: no stale byte survives |
| `PowHasher.Hasher.constructor` | admin/assets/static/challenge.js:1568-1577 | the hasher starts valid for its prefix |
| `PowHasher.Hasher.BitsOf` | admin/assets/static/challenge.js:1578-1596 | after any earlier calls, the answer for n is the number of leading zero bits of SHA-256 of prefix and decimal n, for every message under 2^29 bytes, and the hasher stays valid |
| `LeadingZeros.CountWordZeroBits` | admin/assets/static/challenge.js:1593-1595 | the clz32 loop over the state words counts the leading zero bits of the digest read as one big-endian number |
| `LeadingZeros.CountLeadingZeroBits` | nginx-module/src/bv_parser.c:208-233 | the mask loop over bytes counts the same quantity |
| `PowSolve.MaxIterFits` | admin/assets/static/challenge.js:1618 | up to difficulty 32 every nonce the loops reach has at most sixteen digits |
| `PowSolve.MaxIterIs` | admin/assets/static/challenge.js:1618 | the limit is the larger of ten million and eight times 2^difficulty |
| `PowSolve.SolveInWorker` | admin/assets/static/challenge.js:1649-1655 | the least nonce below the limit that meets the difficulty, else 0 |
| `PowSolve.SolveInBatches` | admin/assets/static/challenge.js:1682-1693 | the same for the batched loop, also when nonce 0 meets the difficulty |
| `PowSolve.SolutionUnique` | admin/assets/static/challenge.js:1649-1693 | the answer is determined, so the two loops agree |
| `BvParser.Atoll` | nginx-module/src/bv_parser.c:11-28 | the value of 1 to 18 decimal digits, -1 otherwise, every intermediate value within int64 |
| `BvParser.AtollInverts` | nginx-module/src/bv_parser.c:11-28 | reads back the decimal numeral of every number below 10^18 |
| `BvParser.Base36` | nginx-module/src/bv_parser.c:183-206 | the value exactly for 1 to 13 base-36 digits of either case with value at most 2^63-1, else -1, without intermediate overflow |
| `BvParser.EncodeBase36` | e2e/lib/powsolve.py:33-37 | the digit loop writes the base-36 numeral, "0" for zero |
| `BvParser.Base36Inverts` | nginx-module/src/bv_parser.c:183-206 | inverts the base-36 encoder on every non-negative int64 |
| `Numerals.DigitValueText` | nginx-module/src/bv_parser.c:183-206 | the value of a digit character is its place in 0-9a-z, upper case read as lower |
| `BvParser.ParseEntry` | nginx-module/src/bv_parser.c:30-88 | accepts exactly the entries the dot-separated segments describe, and the offsets it fills are those segments |
| `BvParser.CookieNext` | nginx-module/src/bv_parser.c:120-181 | each call yields the next value of the remaining header, with strict progress; no value is left when it reports none |
| `BvParser.CookieValuesBySplit` | nginx-module/src/bv_parser.c:128-180 | the values are those of split on semicolons, trim, match the name, unquote |
| `BvParser.PairMeans` | nginx-module/src/bv_parser.c:128-180 | a piece with spaces anywhere around its name and value has the value under its own name and none under another, without surrounding double quotes |
| `BvParser.NoPair` | nginx-module/src/bv_parser.c:158-179 | a piece without an equals sign has no value |
| `PassCookie.VerifyPow` | nginx-module/src/ngx_http_unmask_module.c:1446-1509 | the identity of the first of the two seeds the nonce answers, inside the window and with the difficulty re-clamped; what that asks of an entry is VerdictMeans |
| `PassCookie.VerifySigned` | nginx-module/src/ngx_http_unmask_module.c:1720-1779 | a signed entry verifies exactly when either hash signs its message and its kind is one the daemon issues |
| `PassCookie.VerifyOne` | nginx-module/src/ngx_http_unmask_module.c:1645-1779 | the verdict on an entry is that of what it decodes as |
| `PassCookie.VerifyValue` | nginx-module/src/ngx_http_unmask_module.c:1794-1819 | the first verifying entry of the value within the remaining budget; one unit is spent per entry checked |
| `PassCookie.KindCompute` | nginx-module/src/ngx_http_unmask_module.c:1827-1878 | the first verifying entry among the first sixteen of all `_bv` values together, and at most sixteen entries are ever checked |
| `PassCookie.BudgetStep` | nginx-module/src/ngx_http_unmask_module.c:1865-1876 | spending the budget value by value is spending it on the concatenation |
| `PassCookie.EntriesBySplit` | nginx-module/src/ngx_http_unmask_module.c:1802-1818 | the entries of a value are its pieces between tildes but for an empty last one |
| `PassMeaning.EntryMeans` | nginx-module/src/bv_parser.c:30-88 | an entry decodes as signed with exactly three segments and as a proof of work with more, under the stated lengths |
| `PassMeaning.VerdictMeans` | nginx-module/src/ngx_http_unmask_module.c:1446-1779 | an entry earns a pass if and only if it reads as a fresh time, "pow2" and a nonce whose SHA-256 with a seed of the time, address and host has enough leading zero bits, or as a fresh time, the first eight bytes of a keyed hash of time, address, host and kind, and a kind the daemon issues |
| `PassMeaning.RequestMeans` | nginx-module/src/ngx_http_unmask_module.c:1792-1878 | a request is let through if and only if one of its first sixteen entries earns a pass, and as the first that does |
| `EntrySearch.FirstPassMeaning` | nginx-module/src/ngx_http_unmask_module.c:1802-1818 | a search finds the pass of an entry none of whose predecessors passes, and nothing exactly when none passes |
| `BvList.TokenDecodes` | admin/assets/static/challenge.js:1697-1702 | a minted token decodes as a proof of work with exactly its issue time and nonce |
| `BvList.MintedTokenPasses` | nginx-module/src/ngx_http_unmask_module.c:1446-1509 | what the solver loops return, when a nonce in their reach meets a difficulty at or above the verifier's, makes a token the verifier accepts under the same seed, in the window, when the seed message fits |
| `BvList.MintedTokenIsExact` | admin/assets/static/challenge.js:1649-1702 | whatever the loops return, found or not, the token made of it passes if and only if some nonce in reach meets the difficulty or nonce 0 answers the seed under the other hash |
| `PowRoundTrip.MintToken` | admin/assets/static/challenge.js:1618-1702 | hasher, either search loop and token together: at the verifier's difficulty the minted token passes if and only if some nonce in reach solves the challenge or nonce 0 answers the seed under the other hash |
| `BvList.Accumulate` | admin/assets/static/challenge.js:1789-1797 | the new cookie value is the new token and then the kept earlier ones, cut at the clamped maximum |
| `BvList.RecentFacts` | admin/assets/static/challenge.js:1785-1797 | the reference list holds each token ever minted once and no blank |
| `BvList.StoredIsRecent` | admin/assets/static/challenge.js:1789-1797 | after any history the stored list is the most recent distinct tokens, newest first, at most the clamped maximum |
| `BvList.StoredIsAllRecent` | admin/assets/static/challenge.js:1789-1797 | under a constant maximum nothing within it is lost |
| `BvList.CookieCarriesList` | admin/assets/static/challenge.js:1755-1798 | split and join on `~` are inverse on the list through any history of solves |
| `BvList.ListSearchedCompletely` | nginx-module/src/ngx_http_unmask_module.c:1792-1819 | a sole `_bv` cookie holding the list is searched completely within the verifier's budget |
| `BvList.SolvedClientPasses` | nginx-module/src/ngx_http_unmask_module.c:1827-1878 | a browser whose search has just succeeded, on top of any earlier solves, is let through |
| `PowRoundTrip.SolveAndVisit` | nginx-module/src/ngx_http_unmask_module.c:1827-1878 | from the challenge through search, token, cookie list and header to the verifier: the list is the history's next, the pass is the first its entries earn, and a solvable challenge lets the client through by the token just minted |
| `Ja4Parser.TestGrease` | nginx-module/src/ja4_parser.c:24-27 | the nibble test holds of exactly the sixteen values RFC 8701 reserves |
| `Ja4Parser.GreaseValues` | nginx-module/src/ja4_parser.c:24-27 | the sixteen values are 0x0a0a, 0x1a1a, and so on to 0xfafa |
| `Ja4Parser.ReadList` | nginx-module/src/ja4_parser.c:96-107 | the list loop appends the GREASE-free values in order, cut at the capacity |
| `Ja4Parser.MaxVersion` | nginx-module/src/ja4_parser.c:205-214 | the largest value that is not GREASE, 0 without one |
| `Ja4Parser.ParseAlpn` | nginx-module/src/ja4_parser.c:170-196 | the ALPN characters are the ends of the first protocol name, as hex nibbles unless both are alphanumeric |
| `Ja4Parser.ParseExtensions` | nginx-module/src/ja4_parser.c:128-224 | the loop over the extension block has the effect of its extensions one after another, or fails where one is cut short |
| `Ja4Parser.ParseClientHello` | nginx-module/src/ja4_parser.c:46-227 | on arbitrary bytes the parser stays within the input, terminates, and answers as the grammar does |
| `Ja4Grammar.HelloMeans` | nginx-module/src/ja4_parser.c:46-227 | the messages accepted are exactly those that cut into type 1, a covered length, version and random, a session vector, cipher suites in pairs, a compression vector, and nothing or a block of whole extensions |
| `Ja4Grammar.SigAlgsMean` | nginx-module/src/ja4_parser.c:150-168 | of any type-13 body, the list at its front when it has even length, and else nothing |
| `Ja4Grammar.VersionsMean` | nginx-module/src/ja4_parser.c:198-217 | of any type-43 body, the top of the list at its front when it has even length, and else nothing |
| `Ja4Grammar.AlpnMeans` | nginx-module/src/ja4_parser.c:170-178 | of any type-16 body, the name behind a list length that is not zero and fits, and else nothing |
| `ClientHello.ParseInverts` | nginx-module/src/ja4_parser.c:46-227 | parsing the serialisation of any well-formed ClientHello finds exactly its GREASE-free lists cut at the capacities, top version, SNI and ALPN ends |
| `Ja4Build.QSort` | nginx-module/src/ja4_build.c:126 | the array holds the ascending order of what it held |
| `Ja4Build.BuildB` | nginx-module/src/ja4_build.c:119-139 | the hash of the sorted ciphers, twelve zeros for none, with all writes inside the scratch buffer |
| `Ja4Build.BuildC` | nginx-module/src/ja4_build.c:141-175 | the hash of the sorted extensions without SNI and ALPN, and the signature algorithms in order, inside the scratch buffer |
| `Ja4Build.BuildString` | nginx-module/src/ja4_build.c:62-187 | for any struct, counts negative or oversized and ALPN fields of any value included, and any output size, the output is NUL-terminated within it and holds the JA4 string cut to what fits |
| `Ja4Build.Ja4Shape` | nginx-module/src/ja4_build.c:109-178 | the string is a(10)_b(12)_c(12), alphanumeric apart from the underscores |
| `Ja4Canonical.FingerprintShape` | nginx-module/src/ja4_parser.c:170-196 | that shape holds of every message the parser accepts |
| `Ja4Meaning.FingerprintReads` | nginx-module/src/ja4_build.c:62-187 | of every well-formed hello: t, the text of the version shown, d or i for SNI, two counts up to 99, the ends of the last named protocol; then the hash of the ciphers in ascending order as comma-separated hexadecimal, and of the extensions but SNI and ALPN with the signature algorithms as offered |
| `Ja4Canonical.Canonical` | nginx-module/src/ja4_build.c:62-187 | two hellos of one client have the same fingerprint, whatever the hash, when the first meets the condition that CanonicalIsExact shows to be exact |
| `Ja4Canonical.DistinctAgrees` | nginx-module/src/ja4_parser.c:128-224 | a hello within the capacities that repeats none of the types 13, 16 and 43 meets that condition |
| `Ja4Canonical.ReorderedIsSame` | nginx-module/src/ja4_parser.c:96-138 | reordering cipher suites and extensions is the same client |
| `Ja4Canonical.GreaseCipherIsSame` | nginx-module/src/ja4_parser.c:99-106 | a GREASE cipher suite anywhere is the same client |
| `Ja4Canonical.GreaseExtensionIsSame` | nginx-module/src/ja4_parser.c:137-139 | a GREASE extension anywhere, whatever it carries, is the same client |
| `Ja4Canonical.GreaseInsideIsSame` | nginx-module/src/ja4_parser.c:158-214 | a GREASE value among the signature algorithms or supported versions is the same client |
| `Ja4Canonical.CapacityIsExact` | nginx-module/src/ja4_parser.c:103-105 | order is irrelevant to what is kept if and only if the list fits the capacity or repeats one value |
| `Ja4Limits.CipherOrderIsExact` | nginx-module/src/ja4_parser.c:96-107 | on the bytes of any well-formed hello, no hash shows the order of the cipher suites if and only if the GREASE-free list fits the capacity or repeats one value |
| `Ja4Limits.HexListInjective` | nginx-module/src/ja4_build.c:127-131 | the comma-joined hexadecimal text tells lists of one length apart |
| `Ja4Limits.RepeatedVersionsMatter` | nginx-module/src/ja4_parser.c:198-217 | a hello with two supported_versions extensions, anywhere, that show different versions has two orders with different fingerprints, under every hash |
| `Ja4Limits.RepeatedAlpnMatters` | nginx-module/src/ja4_parser.c:170-196 | the same for two ALPN extensions whose first names have different end characters |
| `Ja4Limits.RepeatedSchemesMatter` | nginx-module/src/ja4_parser.c:150-168 | a hello with two signature_algorithms extensions, anywhere, whose GREASE-free lists do not commute as far as they are kept has two orders that some hash tells apart |
| `Ja4Limits.DroppedTypesMatter` | nginx-module/src/ja4_parser.c:128-139 | a hello with more extension types than are kept, two of which the hash would show differently, has two orders that some hash tells apart |
| `Ja4Limits.CanonicalIsExact` | nginx-module/src/ja4_parser.c:96-224 | for every well-formed hello, its fingerprint is that of all its reorderings, and that of all hellos of the same client with any GREASE, under every hash, if and only if the condition of Canonical holds |
| `BanLines.Classify` | nginx-module/src/ban_list.c:29-69 | the classifier's offsets describe exactly what trimming and splitting at the bars says of the line |
| `BanLines.RowsByLine` | nginx-module/src/ban_list.c:132-176 | the rows of a file are those of its newline-separated lines in order |
| `BanList.Count` | nginx-module/src/ban_list.c:71-103 | the counts are the numbers of exact and prefix rows of the file |
| `BanList.CutReads` | nginx-module/src/ban_list.c:139-160 | after its NULs are written, a line's key and action read as C strings are the field texts cut at their first NUL |
| `BanList.AllKept` | nginx-module/src/ban_list.c:142-145 | the NULs of later lines change nothing that was stored for earlier ones |
| `BanList.ParseTurn` | nginx-module/src/ban_list.c:132-176 | one turn stores the next line of the original file and leaves the bytes after it as they were |
| `BanList.ParseLines` | nginx-module/src/ban_list.c:112-176 | the loop succeeds exactly when the arrays hold all rows, stores exactly the file's rows and prefixes, and a set flag means the rows are in order |
| `BanList.InOrderSorted` | nginx-module/src/ban_list.c:163-167 | no key is below the one before it if and only if the rows are sorted |
| `BanList.SortIfNeeded` | nginx-module/src/ban_list.c:178-182 | skipped or not, the sort leaves a sorted permutation of the file's rows |
| `BanList.Parse` | nginx-module/src/ban_list.c:112-185 | with arrays sized by the count the parse succeeds, fills them exactly, and what they point at is the file's rows in key order and its prefixes in file order |
| `BanList.Lookup` | nginx-module/src/ban_list.c:187-208 | the search finds an action of a row with the key, and nothing exactly when no row has it |
| `BanLookup.BuildList` | nginx-module/src/ngx_http_unmask_module.c:2148-2180 | a loaded index represents the file: its rows sorted, its decodable prefixes in file order |
| `BanLookup.CidrLookup` | nginx-module/src/ngx_http_unmask_module.c:2206-2240 | the action of the first block, by family and mask, that covers the address |
| `BanLookup.BlocksAnswer` | nginx-module/src/ngx_http_unmask_module.c:2164-2180 | the first covering block of the index is the first covering prefix line of the file |
| `BanLookup.WriteKey` | nginx-module/src/ngx_http_unmask_module.c:2390-2405 | the key buffer reads as address, bar and fingerprint whatever it held before |
| `BanLookup.Answer` | nginx-module/src/ngx_http_unmask_module.c:2373-2409 | for every client that fits, the answer is one the file's lines give by precedence; for any other, none |
| `BanLookup.AnswerIsScan` | nginx-module/src/ngx_http_unmask_module.c:2334-2409 | every such answer hits exactly when a scan of the original lines does, and equals it unless two lines contradict each other |
| `BanLookup.FitsIsExact` | nginx-module/src/ngx_http_unmask_module.c:2377-2389 | the answers agree with the file on every file if and only if the client fits the key buffer |
| `BanMeaning.CoversMeans` | nginx-module/src/ngx_http_unmask_module.c:2206-2240 | a block of p leading bits covers an address if and only if it is of its family and has the same first p bits, for IPv4 and IPv6 |
| `BanMeaning.NetworkAnswer` | nginx-module/src/ngx_http_unmask_module.c:2206-2409 | a client no row names gets the action of the first prefix line whose leading bits it has, and none when it has no line's |
| `BanMeaning.NamedAnswer` | nginx-module/src/ngx_http_unmask_module.c:2373-2405 | a row of address and fingerprint decides first, then one of the fingerprint, then one of the address |
| `BanMeaning.WrittenLine` | nginx-module/src/ban_list.c:29-69 | a line "address, fingerprint, source, action" between bars is the row of its address and fingerprint, or a prefix when the address has a slash and the fingerprint is empty |
| `BanReload.Worker.Clear` | nginx-module/src/ngx_http_unmask_module.c:2049-2058 | no list, no identity |
| `BanReload.Worker.Load` | nginx-module/src/ngx_http_unmask_module.c:2065-2201 | a load takes list and identity from the one descriptor opened; a failed one changes neither |
| `BanReload.Worker.Check` | nginx-module/src/ngx_http_unmask_module.c:2250-2309 | the check follows the protocol and keeps the list the index of the version it was read from |
| `BanReload.BanLookupReq` | nginx-module/src/ngx_http_unmask_module.c:2340-2431 | the first call of a request checks, answers for the version in force and caches; later calls repeat it |
| `BanReload.AlwaysOneVersion` | nginx-module/src/ngx_http_unmask_module.c:2065-2309 | over every interleaving, list and identity come from one version that was in place, also when it is replaced between stat and open |
| `BanReload.AtMostOneStatPerSecond` | nginx-module/src/ngx_http_unmask_module.c:2250-2262 | over every run the kernel is asked at strictly increasing seconds |
| `BanReload.NeverOversized` | nginx-module/src/ngx_http_unmask_module.c:2065-2140 | over every interleaving no file above 64 MiB is in force |
| `BanReload.FailedLoadIsRetried` | nginx-module/src/ngx_http_unmask_module.c:2297-2308 | a failed load leaves list and identity, and from the next second a check loads again |
| `BanReload.FailuresKeepList` | nginx-module/src/ngx_http_unmask_module.c:2297-2308 | over any run of failing loads with the file in place, list and identity stay what they were |
| `BanReload.AlwaysFresh` | nginx-module/src/ngx_http_unmask_module.c:2243-2309 | with distinct identities and sound loads, a lookup uses a version no older than the first check of its second |
| `BanReload.SameIdentityIsMissed` | nginx-module/src/ngx_http_unmask_module.c:2291-2296 | two contents under one identity are a run on which the second is not read |
| `OrigEscape.EscapedLen` | nginx-module/src/ngx_http_unmask_module.c:922-932 | the predicted length is the length of the escaped text |
| `OrigEscape.EscapeByteText` | nginx-module/src/ngx_http_unmask_module.c:911-949 | `&`, `;` and `+` become %26, %3B and %2B, and nothing else is encoded |
| `OrigEscape.Escape` | nginx-module/src/ngx_http_unmask_module.c:934-949 | exactly the escaped text is written, and nothing around it changes |
| `OrigEscape.NoSpecials` | nginx-module/src/ngx_http_unmask_module.c:911-921 | the output holds no `&`, `;` or `+` |
| `OrigEscape.DecodeEscaped` | nginx-module/src/ngx_http_unmask_module.c:911-949 | a query reader (plus as space, malformed sequences kept) and a path reader both get from the output what a path reader gets from the original |
| `OciRegistry.Store.WriteAtomic` | tools/oci-static-registry.py:62-67 | a staged write and rename keeps every intermediate state servable when the file may go there |
| `OciRegistry.Store.RemoveOther` | tools/oci-static-registry.py:143-147 | removing the file of the other kind leaves the tag at the new image |
| `OciRegistry.CompleteKept` | tools/oci-static-registry.py:70-82 | what is complete stays complete while nothing under a digest changes |
| `OciRegistry.Advance` | tools/oci-static-registry.py:115-147 | a step that only grows the tree and moves requested tags to a complete image keeps it servable |
| `OciPublish.CopyBlob` | tools/oci-static-registry.py:70-82 | succeeds exactly when the blob is published or in the layout; one already there is left alone, and a missing one is copied with its content |
| `OciPublish.LayManifest` | tools/oci-static-registry.py:115-120 | the manifest resolves under its digest, and its config and layers are present |
| `OciPublish.LayIndex` | tools/oci-static-registry.py:122-134 | the index resolves under its own digest and every child is laid out completely, when no child laid out as a manifest is an index |
| `OciPublish.PointTags` | tools/oci-static-registry.py:141-147 | each requested tag resolves to the new image even if its kind changed |
| `OciPublish.MergeTags` | tools/oci-static-registry.py:149-157 | the list is the sorted union, without new duplicates |
| `OciPublish.Publish` | tools/oci-static-registry.py:85-157 | at every intermediate state every visible and listed tag is complete and either as before or the new image, which then also resolves under its digest; a finished run leaves the requested tags and the digest at it; a whole layout finishes |
| `OciPublish.ChosenMeans` | tools/oci-static-registry.py:96-106 | the image is the blob of the one entry of the given name, or of the only entry, of the kind the entry or else the document gives |
| `OciPublish.IndexFileIsExact` | tools/oci-static-registry.py:122-134 | filing a manifest as an index leaves all visible tags complete if and only if none is at an index that has it as a child |
| `OciPublish.DishonestRunBreaksTag` | tools/oci-static-registry.py:99-134 | on every servable tree with a tag at an index, a run over a layout that calls one of its children an index writes a first file after which the tag still resolves to that index, which is no longer complete |
| `OciPublish.DishonestChildStaysIncomplete` | tools/oci-static-registry.py:124-134 | an index with a child that is a published index but is called a manifest is complete in no tree a run can reach |
| `Supervisor.Record` | admin/cmd/unmask/supervise.go:108-112 | the pruned crash list is the whole history cut to the trailing window |
| `Supervisor.SpacedNext` | admin/cmd/unmask/supervise.go:108-116 | a crash after a permitted restart keeps every window-length interval within the limit |
| `Supervisor.OneRound` | admin/cmd/unmask/supervise.go:74-124 | one round keeps all that, and its status and start follow from what happens in it: a signal before the check ends with 0, a failed start with 1, a signal handed on or a clean end with the child's status, a full window with 1 |
| `Supervisor.Supervise` | admin/cmd/unmask/supervise.go:72-125 | over every behaviour of signals, child and clock the history is permitted and the crashes spaced; the first round in which anything but a rare crash happens decides how the run ends and how often the child was started, and the signals handed on are those taken from the channel |
| `Supervisor.SettledMeans` | admin/cmd/unmask/supervise.go:72-125 | the child is started again only after rounds in which it crashed and no signal came; a clean end of the last child ends the run with 0; rare crashes alone never end it |
| `Supervisor.PlayedAll` | admin/cmd/unmask/supervise.go:91-103 | signals that fit the channel are handed on or still wait, none lost, in the order they came |
| `Supervisor.PlayedTakes` | admin/cmd/unmask/supervise.go:91-103 | a signal is handed on if and only if a take comes after an arrival |
| `DbWait.Report` | admin/cmd/unmask/db_wait.go:72-91 | a restart is attempted exactly when the database answered, and exactly the lines that are due are written: the answer once, the first failed restart at once, everything else a minute or more after the last one that said the wait goes on |
| `DbWait.Run` | admin/cmd/unmask/db_wait.go:56-94 | the waits are 2, 4, 8, 16 and then 30 s; a restart is tried exactly in the rounds not ended in which the database answers; the loop ends at the first success or the shutdown; the log is that of the lines due round by round, at most 2 + elapsed/60 s of them; never silent for a minute |
| `DbWait.EnteredMeans` | admin/cmd/unmask/db_wait.go:56-94 | of the rounds entered, each has its own wait and was tried exactly when ready, and none but the last is final |
| `DbWait.AnswerIsTold` | admin/cmd/unmask/db_wait.go:73-77 | the log tells of the answer if and only if the database has answered, also when the restart then succeeds |

## Left out

- nginx and OpenSSL plumbing of the module: variable registration, phase handlers, pools, logging, the `$host` and bind-key lookups.
- The internals of HMAC, the SHA-256 compression function, `inet_pton`, `ngx_ptocidr` and JSON decoding: parameters.
- NULL pointer arguments of the C functions: they return early, and no caller passes them.
- `unmask_bind_ip_token` (nginx-module/src/bv_parser.c:90-118): thin over `inet_pton`.
- Allocation failures other than in loading the ban file and copying the action.
- The user interface, CAPTCHA, beacon and redirect parts of challenge.js, and the eviction of `_bv` cookies at other paths.
- The log lines of the module and of the supervisor, and the byte count the publisher prints.
- `admin/internal/ban/normalize.go`: its treatment of v4-mapped addresses differs from the C prefix lookup, which compares families only.
- BanLookup.AnswerIsScan: with two lines of one key and different actions the answer is one of theirs, not always the first, since the search does not order equal keys.
- nginx-module/src/ja4_build.h speaks of a 38-byte buffer; the string is 36 characters and its NUL the 37th byte.
- BanMeaning.NetworkAnswer: the decoder is taken to yield addresses masked by leading ones, as `ngx_ptocidr` does.
- BanMeaning.NamedAnswer: for files without two actions for one key; otherwise see BanLookup.AnswerIsScan.
- BanReload.AlwaysFresh: the writer only renames complete files into place or removes the file, as the daemon does; a file rewritten in place is not modelled.
- OciPublish.LayIndex: a child laid out as a manifest is taken not to be an index, which `OciPublish.DishonestChildStaysIncomplete` shows to be needed.
- OciPublish.Publish: the chosen entry, and the children as for LayIndex, are taken to be of the kind their descriptors say, which `OciPublish.DishonestRunBreaksTag` shows to be needed; SHA-256 is taken to be free of collisions and tags to have no colon; a failing disk write is a run that stops at one of the states shown servable.
- BvList.MintedTokenIsExact: at the verifier's own difficulty; for a client that solved a harder one, MintedTokenPasses.
- DbWait.Run: the shutdown may still arrive between the check after the open and the restart; the claim is about the check.
- Supervisor.Supervise: a signal that arrives between the check and the start is handed to the child, not acted on before it.
- BvList.MintedTokenPasses: the bot flags are taken to be below 36, as the page sets at most 31.
