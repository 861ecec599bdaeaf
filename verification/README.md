# The logic of binfmt-support, modelled and verified

binfmt-support keeps the records of foreign executable formats: which magic or extension
belongs to which interpreter, and for which package. `update-binfmts` stores a record per
format in an administrative directory and registers the formats with the kernel;
`run-detectors` finds, for a file, the interpreters to try. Both are small programs on top
of modules of gnulib. This project models the parts of the programs and of those modules
that hold state, loops or arithmetic, and proves what they keep and compute:

* **Hash table** (`HashBuckets`, `HashTables`, `HashNumbers`): buckets with overflow chains, a
  free list, and a rehash that fails half way and undoes itself. Any sequence of requests,
  with any failing allocations, is a run of a finite map; the overflow nodes in use and
  free are conserved, which makes the `abort` of the rollback unreachable. The prime search is
  exact for all 64-bit numbers, although its square wraps around.
* **Command line** (`OptionScan`, `Getopt`, `OptionW`, `CommandLines`): the permutation of argv
  in place, as a state machine over calls, against a plain scan of the original argv; and the
  round trip from a list of options and arguments, spelled in any of the ways there are, to the
  replies of getopt.
* **Option trees** (`ArgpTree`, `ArgpHelp`, `ArgpParse`, `ArgpAgreement`, `ArgpGetopt`): the help
  list and the parser tables that are built from a tree of options, all writes in bounds, when
  the two agree on who owns a short letter, and what the tables tell getopt.
* **Canonical file names** (`PathNames`, `RealPath`): the buffers of `realpath` against a
  resolver on lists of components, as in section 4.13 of the Base Definitions of
  POSIX.1-2008 (2016 edition).
* **Format strings** (`PrintfSyntax`, `PrintfDirectives`, `PrintfRecords`, `PrintfParse`,
  `XSize`): the parser against the grammar of section 7.21.6.1 of ISO C11 with the numbered
  arguments of POSIX, and the records it makes read back from the format.
* **Word scans** (`Words`, `WordShifts`, `StringScans`): three searches a word at a time against a
  search byte by byte, for every word size and byte order.
* **The registry** (`Format`, `Registry`, `Reinstall`, `ImportFiles`, `Outcomes`, `Find`): the
  record and import files, the actions on directory, kernel and cache with every operation free
  to fail, what an installation registers, and the search for interpreters.
* **Lists and limits** (`ArrayList`, `SortedList`, `IntProps`): arrays that grow, sorted lists,
  and the macros that predict overflow and lengths.

`Options`, `CStrings`, `Decimals`, `Allocation` and `Arithmetic` serve all of these.

The objects that the C code updates in place are classes whose methods are proved against
functions on values; the functions are what the lemmas are about. An `abort ()` of the
program is an `assert false` or a result of its own. An allocation may fail wherever the
code asks for one, in an object that is marked `scarce`; without that mark none fails. In
the registry `faults` does the same for input and output.

`dafny verify dfyconfig.toml` checks everything.

## Where the code differs from its description

The model follows the code in these places.

* gnulib/lib/gl_array_list.c:568 sets `high = mid2 - 1`, which can pass over the first of several
  equal elements, contrary to the comment at gnulib/lib/gl_array_list.c:552-556 and to the promise
  of the leftmost position at gnulib/lib/gl_list.h:435. `SortedList.SearchAmongEqual` is an
  example, `SortedList.FoundFirst` the exact condition; without duplicates, for which alone
  these lists are meant (gnulib/lib/gl_list.h:387), nothing goes wrong (`SortedList.StrictSearch`).
* On a reinstall src/update-binfmts.c:606 leaves the old record in the cache (src/kvhash.c:82-87),
  so that the kernel gets the old record (`Reinstall.ReinstallMisses`). And what is written to the
  directory loses trailing white space when it is loaded again (src/format.c:65-68), while the
  kernel gets the record as it was given (`Reinstall.BlankMisses`). `Reinstall.InstalledIs` is the
  exact condition under which directory and kernel agree after an install.
* Disabling all formats does not reach those that the kernel has while procdir is not mounted
  (src/update-binfmts.c:460-474 and 519), and enabling all then leaves them as they are
  (src/update-binfmts.c:368-380). `Registry.Registry.DisableThenEnable` has the exact condition for
  the pair to bring kernel and directory together, `Reinstall.KeepStale` a state in which it fails.
* src/find.c:196 ignores a mask that begins with a zero byte, and src/find.c:199 compares with the
  magic unmasked. `Find.MatchesAgree` says for which records this makes a difference.
* `strtol` at src/find.c:62 also takes a sign or a blank followed by one digit (section 7.22.1.4 of
  ISO C11), so `\x-1` and `\x 1` are escapes too.
* gnulib/lib/argp-parse.c:471 reserves no byte for the `+` of ARGP_NO_ARGS. `ArgpParse.FitsExactly`
  says when it fits all the same, `ArgpParse.DoesNotFit` gives a tree for which it does not.
* Help looks at an option's own documentation flag (gnulib/lib/argp-help.c:486-491), the parser at
  that of the option it is an alias of (gnulib/lib/argp-parse.c:308). `ArgpAgreement.SameOwner` says
  exactly when both give every letter to the same group, `ArgpAgreement.FirstUsesAgree` when they
  even mean the same option; `ArgpAgreement.StrayDisagrees` is a tree for which the groups differ.
* With `W;` in the option string and no long options, `-Wfoo` is answered again and again by
  getopt (gnulib/lib/getopt.c:842-843, `OptionW.ReadForEver`), and an ambiguous name at the end
  takes optind beyond argc (gnulib/lib/getopt.c:955, `OptionW.ReachesBeyond`). `OptionW.MovesOn` is
  the exact condition for one call, `OptionW.ReadsToEnd` one for whole command lines.
* `act_install` writes `name.tmp` into the administrative directory (src/update-binfmts.c:590), so a
  record of that name is not protected by the ownership rule when `name` is installed or imported.
* Writing "-1" to the status file disables all formats, so disabling a format named "status" does
  more than disabling one (src/update-binfmts.c:493-499).

## Model

| member | source | states |
|---|---|---|
| HashTables.HashTable.constructor | gnulib/lib/hash.c:593-646 | A new table of `n` buckets is empty, with exact counters. (Reached when tuning, size and allocation are accepted.) |
| HashTables.HashTable.ScanBucket | gnulib/lib/hash.c:260-275 | The walk over one chain stops at an entry that is the wanted one or that the comparator matches with it, or has compared every entry of the chain. |
| HashTables.HashTable.Lookup | gnulib/lib/hash.c:260-275 | A result is a stored entry that is `entry` itself or that `comparator (entry, y)` accepts; no result means that no stored entry anywhere in the table is either, although only one bucket is read. |
| HashTables.HashTable.GetFirst | gnulib/lib/hash.c:287-300 | The first entry of the walking order, found without the `abort` at the end of the loop whenever the table is not empty. |
| HashTables.HashTable.GetNext | gnulib/lib/hash.c:306-329 | From the entry at any position of the walking order the one at the next position, or nothing at the end. |
| HashTables.HashTable.FirstFrom | gnulib/lib/hash.c:321-328 | The scan over later buckets finds the entry that follows everything stored in earlier ones. |
| HashTables.HashTable.UniquePosition | gnulib/lib/hash.c:306-329 | An entry stands at one position only, so naming the entry is enough to continue a walk. |
| HashTables.HashTable.Walk | gnulib/lib/hash.c:287-329 | A first/next walk visits exactly the contents of the table, each entry once. |
| HashTables.HashTable.WalkInserting | gnulib/lib/hash.c:287-329 | A first/next walk in the course of which entries with a match are inserted visits what it would visit without, and the buckets stay as they are: loading records again does not disturb it (src/update-binfmts.c:448-453). |
| HashTables.HashTable.AllocateEntry | gnulib/lib/hash.c:750-770 | A node comes from the free list, or else is newly made; a new one is made, or fails to be, exactly when that list is empty. |
| HashTables.HashTable.FindEntry | gnulib/lib/hash.c:789-851 | Finds an entry that is the same or that the comparator accepts, or proves that the whole table has none; with `delete`, takes exactly that entry out of its chain, keeps the placement of the rest, and loses no overflow node. |
| HashTables.HashTable.RelinkEntry | gnulib/lib/hash.c:877-899 | A relinked overflow entry lands behind the head of its bucket, or becomes the head and gives its node to the free list. |
| HashTables.HashTable.TransferOverflow | gnulib/lib/hash.c:871-900 | Moving the overflow of one bucket leaves its head, keeps all entries, placements and overflow nodes. |
| HashTables.HashTable.TransferHead | gnulib/lib/hash.c:901-931 | Moving a head uses an overflow node exactly if its new bucket is occupied; failure changes nothing and means that the free list is empty and the bucket occupied. |
| HashTables.HashTable.TransferBucket | gnulib/lib/hash.c:865-931 | One turn over a bucket: nothing is lost, other buckets stay, and what remains in the bucket depends on `safe` and on success. |
| HashTables.HashTable.TransferEntries | gnulib/lib/hash.c:859-934 | A whole transfer conserves entries and overflow nodes (plus those newly made); a safe one cannot fail and leaves heads only, a full one empties the source or stops at a head that needs a node nobody has. |
| HashBuckets.KeptTrans | gnulib/lib/hash.c:859-934 | What a transfer keeps is kept by two transfers in a row, with the numbers of newly made nodes added: the conservation law behind the rollback. |
| HashBuckets.MoveOverflow | gnulib/lib/hash.c:877-899 | Relinking one overflow entry conserves entries, placements, and overflow nodes in use plus free. |
| HashBuckets.MoveHead | gnulib/lib/hash.c:904-931 | Moving one head conserves the same, counting the node taken or made. |
| HashBuckets.PlacedSubset | gnulib/lib/hash.c:999-1011 | A table holding part of another table's entries, with equal bucket count and hasher, uses at most as many overflow nodes. |
| HashBuckets.NodeAvailable | gnulib/lib/hash.c:1012-1015 | In the second pass of a rollback a head whose old bucket is already occupied always finds a free node. |
| HashTables.HashTable.RollBack | gnulib/lib/hash.c:1012-1018 | The two passes of a rollback both succeed without `malloc` having to: the `abort` at line 1015 is unreachable, and every entry is back. |
| HashTables.HashTable.Refill | gnulib/lib/hash.c:980-1018 | Either all entries reach the new bucket array or all are again in the old one, with at least as many spare nodes as before. |
| HashBuckets.PlacedSame | gnulib/lib/hash.c:999-1019 | Bucket by bucket, placement and the used and overflow counts are determined by which entries are stored, whatever the order of moves. |
| HashTables.HashTable.Rehash | gnulib/lib/hash.c:942-1019 | Contents and invariants are kept whether or not memory runs out; success gives the wanted size, failure (only of an allocation or for a refused size) leaves every entry in its old bucket, `n_buckets_used` as it was, and no fewer spare nodes. |
| HashTables.HashTable.InsertIfAbsent | gnulib/lib/hash.c:1037-1117 | 0 exactly when a stored entry is `entry` itself or is accepted by the comparator (and nothing changes), 1 after adding exactly `entry`, -1 with unchanged contents when memory runs out or a size is out of range; the second `abort` (line 1088) is unreachable. |
| HashTables.HashTable.AddEntry | gnulib/lib/hash.c:1092-1117 | Linking a new entry into its bucket keeps the table valid and adds just that entry; it fails, leaving the buckets as they were, only for an occupied bucket with no spare node. |
| HashTables.HashTable.Delete | gnulib/lib/hash.c:1147-1205 | Takes out exactly the stored entry that is the same or that the comparator accepts, or proves that there is none and changes nothing; a failed shrink is harmless. |
| HashTables.HashTable.Perform | gnulib/lib/hash.c:942-1205 | Each request (insert, delete, lookup, rehash) is a step of a finite map keyed by the comparator. |
| HashTables.HashTable.Run | gnulib/lib/hash.c:942-1205 | Any sequence of requests, with any pattern of failing allocations (and no failure where none fails), is a run of that finite map, with at most one entry per key in every state. |
| HashTables.HashTable.RunKeyed | gnulib/lib/hash.c:942-1205 | For any function `key` such that the comparator accepts exactly the entries of equal keys, every run is a run of a map from keys to entries: the first entry of a key stays, any entry of that key finds it, and a table is at any time exactly the values of the map. |
| HashTables.StepKeyed | src/kvhash.c:39-50 | One step of the table is one step of that map. |
| HashTables.KeyedStart | src/kvhash.c:39-50 | A table with at most one entry per key is such a map to begin with. |
| HashBuckets.CountEntries | gnulib/lib/hash.c:200-226 | Used heads plus overflow nodes are all the entries: the sum that `hash_table_ok` compares. |
| HashNumbers.IsPrime | gnulib/lib/hash.c:443-457 | True exactly for primes, for every odd 64-bit candidate of at least 11, even where `square` wraps around. |
| HashNumbers.NextPrime | gnulib/lib/hash.c:462-476 | The least prime that is at least 11 and at least `candidate`, or SIZE_MAX when there is no such prime below it. |
| HashNumbers.NoDivisor | gnulib/lib/hash.c:449-456 | When the loop ends at a square not below the candidate, and its divisor does not divide, the candidate is prime. |
| HashNumbers.FoundDivisor | gnulib/lib/hash.c:449-456 | When the loop ends at a dividing divisor, the candidate is composite: the divisor is never the candidate itself. |
| HashNumbers.SearchEnds | gnulib/lib/hash.c:449-454 | The divisor stays bounded although its square is kept modulo 2^64, so the loop ends. |
| HashNumbers.HashString | gnulib/lib/hash.c:427-437 | The loop computes the recurrence that reduces 31 times the value so far plus the next byte, first modulo 2^64 and then modulo `n_buckets`, for every string and number of buckets. |
| HashNumbers.StringHash | gnulib/lib/hash.c:427-437 | Its value is a bucket number. |
| HashNumbers.HashIsPolynomial | gnulib/lib/hash.c:427-437 | It is the base-31 polynomial of the bytes modulo `n_buckets` whenever 31 times the number of buckets leaves room in size_t. |
| Getopt.Exchange | gnulib/lib/getopt.c:143-220 | The in-place block swaps turn the segments A B into B A, each in its own order, and touch nothing else. |
| Getopt.TradeFront | gnulib/lib/getopt.c:180-196 | Swapping the short front block to the end leaves a smaller exchange with the same outcome. |
| Getopt.TradeBack | gnulib/lib/getopt.c:197-213 | Swapping the short back block to the front leaves a smaller exchange with the same outcome. |
| Getopt.Getopt.constructor | gnulib/lib/getopt.c:224-254 | The first call starts at element 1 with nothing scanned and no text pending. |
| Getopt.Getopt.BringOptionsForward | gnulib/lib/getopt.c:393-402 | Options scanned behind skipped non-options move in front of them; the non-options stay one run that ends at optind. |
| Getopt.Getopt.SkipNonOptions | gnulib/lib/getopt.c:404-409 | Skipping takes every non-option up to the next option into the run and answers nothing. |
| Getopt.Getopt.EndOfOptions | gnulib/lib/getopt.c:412-429 | After `--` every later element is a non-option, and `--` itself counts among the options. |
| Getopt.Getopt.ReadToEnd | gnulib/lib/getopt.c:417-441 | At the end argv is the program name, then all options, then all non-options, and optind is the first non-option. |
| Getopt.Getopt.Advance | gnulib/lib/getopt.c:382-459 | Reaching the next element keeps what the whole scan will answer; -1 is returned only when the scan is complete, 1 only with a non-option to report. |
| Getopt.Getopt.DecodeLongOption | gnulib/lib/getopt.c:476-783 | A long option (by name, abbreviation, or not at all) gives the code, argument and optopt that the rules of the option table give, and leaves the text alone when the short option rules have to be tried; which these are, CommandLines.LongNamed says. |
| Getopt.Getopt.DecodeShortOption | gnulib/lib/getopt.c:785-1124 | A short option gives the code, the argument (rest of the element, next element, or none) and the optopt that the option string gives, `W;` included. |
| Getopt.Getopt.TakeW | gnulib/lib/getopt.c:831-1056 | The `W;` branch: which element is read as a long option, what is returned and where optind goes, be it beyond argc. |
| Getopt.Getopt.TakeNamed | gnulib/lib/getopt.c:958-1051 | Its end, for a name with a match. |
| Getopt.Getopt.DecodeElement | gnulib/lib/getopt.c:461-1124 | Decoding always makes progress in the element or beyond it, and answers what the scan of the original command line answers. |
| Getopt.Getopt.Next | gnulib/lib/getopt.c:345-1125 | One call: either one more answer of the unpermuted scan, with progress, or -1 with the command line in its final order; asked only where the scan comes to the end of the arguments. |
| Getopt.ParseCommandLine | gnulib/lib/getopt.c:345-1125 | A whole run of calls, in any of the three orderings, for every command line whose scan comes to the end of the arguments (without `W;` that is every one): the answers are those of a plain scan of the original argv, argv ends as program name, options with their arguments (and `--`) in order, non-options in order, a permutation of the original, and optind delimits the two. |
| CommandLines.ReadCommandLine | gnulib/lib/getopt.c:345-1125 | For every list of options and words that is written in one of the allowed ways (`--name=arg`, `--name arg`, `--name` or an abbreviation, with one dash for long-only programs, `-cARG`, `-c ARG`, clusters `-abc`, unknown and ambiguous names, unknown letters, and at the end `--`, a first word in the strict ordering, or an option that lacks its argument) the replies are exactly the codes and arguments written, in order; argv ends with the options in front and optind at the words. |
| CommandLines.WrittenRead | gnulib/lib/getopt.c:345-1125 | The reading of such a command line gives what was written, in each of the three orderings, with has_arg 0, 1 or 2 and no, one or two colons. |
| CommandLines.LongNamed | gnulib/lib/getopt.c:601-722 | What a long option gives: the text behind the first `=` as its argument if it takes one, else '?'; the next element if it needs one, else ':' or '?' as the option string begins; its value, or 0 if it has a flag. |
| CommandLines.DenotesIs | gnulib/lib/getopt.c:498-530 | A name denotes the first option that has it, or else the first that it abbreviates if all others it abbreviates are alike. |
| CommandLines.DenotesNoneIs | gnulib/lib/getopt.c:498-530 | A name that begins no option's name has no match. |
| CommandLines.DenotesTwoIs | gnulib/lib/getopt.c:498-530 | A name that begins the names of two options that are not alike is ambiguous. |
| CommandLines.FlagStep | gnulib/lib/getopt.c:785-829 | A letter without colons, or an unknown one, takes one character and nothing else. |
| CommandLines.ArgStep | gnulib/lib/getopt.c:1058-1120 | A letter with one or two colons takes the rest of its element, or else (with one colon) the next element, or is answered with ':' or '?'. |
| CommandLines.WNamed | gnulib/lib/getopt.c:831-1056 | A name behind a `W` that asks for it, in the same element or the next one, gives what it gives behind `--`, except that it is itself the argument where it may not have one or lacks one. |
| CommandLines.MeansConfigure | gnulib/lib/getopt.c:224-254 | A leading '-' or '+' of the option string, or else the environment, chooses the ordering. |
| OptionScan.ScanKeeps | gnulib/lib/getopt.c:301-304 | The plain scan puts every element into the options or the non-options, once. |
| OptionScan.StepKeeps | gnulib/lib/getopt.c:382-1124 | So does each single step of it. |
| OptionScan.FindLong | gnulib/lib/getopt.c:498-530 | The matching loop finds the exact name, else the only (or equivalent) abbreviation, else reports ambiguity or no match. |
| OptionScan.MatchUnique | gnulib/lib/getopt.c:498-530 | The declarative matching rule gives at most one verdict for a table and a name. |
| OptionScan.MatchExists | gnulib/lib/getopt.c:498-530 | And it always gives one. |
| OptionW.MovesOn | gnulib/lib/getopt.c:831-1056 | An answer to `W;` moves optind forward and not past argc if and only if long options were given or no text follows the letter, and an ambiguous name is not the last thing on the command line. |
| OptionW.SameAsLong | gnulib/lib/getopt.c:831-1056 | Where the name matches, `-W name` has the effect of `--name`. |
| OptionW.ReadsToEnd | gnulib/lib/getopt.c:345-1125 | The scan of a whole command line comes to the end of the arguments without `W;`, and with it if long options were given and no ambiguous name behind a `W` ends the command line. |
| OptionW.ReadForEver | gnulib/lib/getopt.c:842-843 | Without long options the answer to `-Wfoo` finishes with no element, so that every further call gives it again. |
| OptionW.ReachesBeyond | gnulib/lib/getopt.c:954-956 | `-Wa` at the end, with long options `add` and `all`, takes optind to argc + 1. |
| PathNames.ComponentsOfBody | gnulib/lib/canonicalize-lgpl.c:187-202 | Splitting the text of a path at slashes gives back its components. |
| PathNames.ResolveCanonical | gnulib/lib/canonicalize-lgpl.c:181-353 | A resolved path is a list of proper names (none empty, `.` or `..`) of which every prefix exists and is no symbolic link, every proper prefix a directory. |
| PathNames.ResolveIdempotent | gnulib/lib/canonicalize-lgpl.c:98-372 | Resolving a result again gives that result (if its text fits the buffer, where there is one). |
| PathNames.ResolveDown | gnulib/lib/canonicalize-lgpl.c:181-353 | A canonical path resolves to itself, starting from any of its prefixes. |
| PathNames.ResolveName | gnulib/lib/canonicalize-lgpl.c:209-264 | A component that is no symbolic link is entered without looking at anything else. |
| PathNames.ResolveSlash | gnulib/lib/canonicalize-lgpl.c:187-190 | Any number of slashes separates two names. |
| PathNames.ResolveStep | gnulib/lib/canonicalize-lgpl.c:187-264 | One name in front of any rest: `.` stays, `..` goes up one and stays in the root, a directory is entered, a file must come last (ENOTDIR), a missing name gives its error, the 21st link is ELOOP. |
| PathNames.ResolveLink | gnulib/lib/canonicalize-lgpl.c:267-345 | A followed link goes on with its target and the rest behind it, from the root if the target begins with a slash and else from the link's directory; ENAMETOOLONG exactly if both together reach PATH_MAX, where a target longer than the buffer is cut off. |
| PathNames.ResolveChain | gnulib/lib/canonicalize-lgpl.c:267-283 | A chain of links from name to name is resolved to its end if it has at most 20 links that are still allowed, and is ELOOP otherwise. |
| RealPath.Walk.constructor | gnulib/lib/canonicalize-lgpl.c:145-179 | The walk starts at the root or at the working directory, with the whole name to do. |
| RealPath.Walk.NextComponent | gnulib/lib/canonicalize-lgpl.c:187-196 | Skips the slashes and delimits the next component of the text still to do. |
| RealPath.Walk.PopComponent | gnulib/lib/canonicalize-lgpl.c:204-207 | `..` takes the last component off the buffer, and nothing at the root. |
| RealPath.Walk.EnsureRoom | gnulib/lib/canonicalize-lgpl.c:220-250 | After growing there is room for the component and its terminator, with the old text copied; a caller's buffer is never replaced and is too small exactly in the ENAMETOOLONG case. |
| RealPath.Walk.CopyComponent | gnulib/lib/canonicalize-lgpl.c:252-258 | Copies the component and a terminator into the buffer, keeping what precedes it and the text still to do. |
| RealPath.Walk.PushComponent | gnulib/lib/canonicalize-lgpl.c:217-258 | The buffer then holds the text of the longer path, NUL terminated and in bounds. |
| RealPath.Walk.Splice | gnulib/lib/canonicalize-lgpl.c:306-316 | The overlapping move and copy in `extra_buf` put the link's target in front of the text still to do, in bounds. |
| RealPath.Walk.FollowLink | gnulib/lib/canonicalize-lgpl.c:267-345 | A link restarts at the root or at its directory with target and rest to do; ELOOP and ENAMETOOLONG occur exactly at the limits, and a failing readlink gives its own error (or memory runs out). |
| RealPath.Walk.Visit | gnulib/lib/canonicalize-lgpl.c:213-352 | Handling one component leaves a state that means what the resolver says of that entry. |
| RealPath.Walk.Enter | gnulib/lib/canonicalize-lgpl.c:259-352 | The part behind the copy: what lstat says of the name decides as in the resolver. |
| RealPath.Walk.Turn | gnulib/lib/canonicalize-lgpl.c:181-353 | One turn keeps what the rest of the walk means and lowers the measure (links left, text left). |
| RealPath.Walk.Run | gnulib/lib/canonicalize-lgpl.c:181-353 | The loop terminates and ends with the resolver's path or error, or ENOMEM where memory is scarce. |
| RealPath.Walk.Finish | gnulib/lib/canonicalize-lgpl.c:354-367 | The trailing slash is dropped (except at the root) and the result terminated inside the buffer. |
| RealPath.ResolveFrom | gnulib/lib/canonicalize-lgpl.c:181-372 | From a buffer that holds the starting directory, the result is the resolver's. |
| RealPath.Canonicalize | gnulib/lib/canonicalize-lgpl.c:98-372 | The whole function refines the component-list resolver: same path or same errno (but for ENOMEM where memory is scarce), EINVAL for no name and ENOENT for an empty one, and the caller's buffer holds the result. |
| ArgpTree.ItemsOrdered | gnulib/lib/argp-parse.c:288-387 | In preorder the options of a group are together and group numbers only grow, within the groups counted for the tree. |
| ArgpTree.ItemsAreAll | gnulib/lib/argp-parse.c:288-387 | The flattened list has every option of every argp of the tree, as often as it occurs, an argp's own before those of its children. |
| ArgpTree.RealIs | gnulib/lib/argp-parse.c:304-306 | An alias takes its argument and flags from the nearest option in front of it that is none. |
| ArgpTree.LettersAre | gnulib/lib/argp-help.c:432-500 | The letters that help keeps are exactly those of the visible short options, whatever shadows what. |
| ArgpTree.LettersDistinct | gnulib/lib/argp-help.c:845-937 | No letter is kept twice. |
| ArgpTree.FreshLetter | gnulib/lib/argp-help.c:486-491 | An option's letter is kept exactly if no earlier option used it. |
| ArgpTree.NextLetterTells | gnulib/lib/argp-help.c:360-366 | Comparing the next kept letter with the option's own letter tells whether this option is the one that kept it. |
| ArgpHelp.FindChar | gnulib/lib/argp-help.c:339-349 | Tells whether the character occurs in the part of the buffer that is searched. |
| ArgpHelp.FillEntries | gnulib/lib/argp-help.c:470-496 | Filling the tables of one argp covers its options by entries with aliases, keeps the first use of each letter, and stays in the bounds counted before. |
| ArgpHelp.Hol.MakeHol | gnulib/lib/argp-help.c:432-500 | The list made from one argp describes exactly its options and its unshadowed letters. |
| ArgpHelp.MergeOption | gnulib/lib/argp-help.c:909-922 | A letter of the appended list survives exactly if the first list does not have it. |
| ArgpHelp.MergeEntries | gnulib/lib/argp-help.c:898-925 | Re-pointing and copying all entries keeps each entry's cursor at its own letters, in bounds. |
| ArgpHelp.Hol.Append | gnulib/lib/argp-help.c:845-937 | The appended list describes the options of both, in order, with the first list's letters shadowing the second's. |
| ArgpHelp.ArgpHol | gnulib/lib/argp-help.c:1382-1403 | For a whole tree the list describes all options in preorder. |
| ArgpHelp.ShortIterate | gnulib/lib/argp-help.c:548-571 | Iterating over one entry with the cursor into the letters shows exactly the letters that the entry's options own. |
| ArgpHelp.HelpClaims | gnulib/lib/argp-help.c:548-571 | Over the whole tree, help shows each letter once, for its first user's group. |
| ArgpParse.ValueRoundTrip | gnulib/lib/argp-parse.c:342-344 | The group number and the user's key come back out of an encoded option value if and only if the group fits in 7 bits and the key in 24 signed bits. |
| ArgpParse.CalcSizes | gnulib/lib/argp-parse.c:429-454 | Adds, for the whole tree, three letters and one long option per option, one group per argp with options or parser, one slot per child. |
| ArgpParse.FitsExactly | gnulib/lib/argp-parse.c:471-483 | The short option string with its prefix and terminator fits its budget for every tree, except that with ARGP_NO_ARGS it fits if and only if some option needs fewer than three characters. |
| ArgpParse.DoesNotFit | gnulib/lib/argp-parse.c:471-483 | A tree without options does not fit with ARGP_NO_ARGS. |
| ArgpParse.Parser.constructor | gnulib/lib/argp-parse.c:389-408 | The tables start empty and terminated, with the ordering prefix written. |
| ArgpParse.Parser.FindLongOption | gnulib/lib/argp-parse.c:175-188 | Tells whether the table filled so far has the name. |
| ArgpParse.Parser.PutOption | gnulib/lib/argp-parse.c:314-321 | Appends the letter and its colons in bounds and keeps the string terminated. |
| ArgpParse.Parser.AddShort | gnulib/lib/argp-parse.c:311-322 | The option string stays the concatenation for the options converted so far, in bounds. |
| ArgpParse.Parser.AddLong | gnulib/lib/argp-parse.c:324-348 | The long option table stays the first use of every name among the options converted so far, in bounds and terminated. |
| ArgpParse.Parser.ConvertOption | gnulib/lib/argp-parse.c:302-350 | Converting one option keeps both tables right for the options so far. |
| ArgpParse.Parser.OpenGroup | gnulib/lib/argp-parse.c:352-373 | The next group gets its argp, its end of letters, its parent and its child slots, in bounds, and earlier groups stay. |
| ArgpParse.Parser.ConvertOptions | gnulib/lib/argp-parse.c:284-387 | Converting a subtree consumes exactly its options and groups and at most its child slots, all writes in bounds. |
| ArgpParse.Parser.ConvertChildren | gnulib/lib/argp-parse.c:378-384 | So does the loop over the children. |
| ArgpParse.ParserInit | gnulib/lib/argp-parse.c:456-507 | With the sizes from the first pass, the second pass fills all tables in bounds for every tree that fits. |
| ArgpParse.LetterAt | gnulib/lib/argp-parse.c:730 | The first occurrence of a letter in the option string is the place written by the first option that uses it. |
| ArgpParse.EndsBehind | gnulib/lib/argp-parse.c:733-734 | A group's letters end behind that place exactly if the option belongs to that group or an earlier one. |
| ArgpParse.StrChr | gnulib/lib/argp-parse.c:730 | Finds the first occurrence in the terminated string, or its end. |
| ArgpParse.OwnerOfShort | gnulib/lib/argp-parse.c:724-740 | The search by position dispatches a letter to the group of the first option that uses it. |
| ArgpParse.ParseOpt | gnulib/lib/argp-parse.c:714-747 | Dispatch by option value: a letter goes to its owner with itself as key, an encoded value to its group with the user's key. |
| ArgpGetopt.LetterMeans | gnulib/lib/argp-parse.c:311-322 | In the option string of a tree, the first option with a letter is followed by no, one or two colons exactly as it takes no, a required or an optional argument, which is what getopt makes of it. |
| ArgpGetopt.LongMeans | gnulib/lib/argp-parse.c:324-348 | In the long option table, the first option with a name is the one that getopt finds under the name, with has_arg 0, 1 or 2, and the value that getopt then returns holds the option's group and key. |
| ArgpGetopt.PrefixMeans | gnulib/lib/argp-parse.c:399-402 | The prefix makes getopt report other arguments in order with ARGP_IN_ORDER, stop at them with ARGP_NO_ARGS, and else skip them. |
| ArgpAgreement.FirstUsesAgree | gnulib/lib/argp-help.c:486-491 | Help and parser pick the same first option for every letter if and only if no letter is first used by an alias, not itself marked as documentation, of a documentation option. |
| ArgpAgreement.ShownIs | gnulib/lib/argp-help.c:548-571 | Help shows a letter for a group exactly if the first user of the letter is in that group. |
| ArgpAgreement.SameOwner | gnulib/lib/argp-parse.c:724-740 | For every tree: help shows each letter for exactly the group to which the parser gives it if and only if every such stray alias is followed by an option of its own group that gives the parser the same letter. |
| ArgpAgreement.StrayDisagrees | gnulib/lib/argp-parse.c:308-312 | A tree for which the groups differ. |
| XSize.XsumIs | gnulib/lib/xsize.h:58-67 | The wrap-around test gives the exact sum, or SIZE_MAX when it does not fit. |
| XSize.XtimesIs | gnulib/lib/xsize.h:101-106 | The quotient test gives the exact product, or SIZE_MAX when it does not fit. |
| PrintfSyntax.ReadSound | gnulib/lib/printf-parse.c:137-580 | What the reader takes for a directive stands in the format, symbol for symbol. |
| PrintfSyntax.ReadComplete | gnulib/lib/printf-parse.c:137-580 | Every well-formed directive that stands in the format is read as just that directive: the grammar of section 7.21.6.1 of ISO C11 (with POSIX positions) is unambiguous and the reader complete. |
| PrintfDirectives.ParseSound | gnulib/lib/printf-parse.c:134-610 | The pieces found are disjoint, in order, well formed, and account for every `%`. |
| PrintfDirectives.ParseComplete | gnulib/lib/printf-parse.c:134-610 | Every such division of a format is the one that is found. |
| PrintfDirectives.NumberIs | gnulib/lib/printf-parse.c:100-132 | Numbering and typing the arguments succeeds if and only if the count fits and uses of one argument agree in type; then every use's index holds its type. |
| PrintfDirectives.MeaningIs | gnulib/lib/printf-parse.c:82-632 | A format is accepted if and only if it divides into directives whose argument types agree. |
| PrintfDirectives.NeverWraps | gnulib/lib/printf-parse.c:255-259 | The wrap-around test on the argument number never decides anything for a format that fits in memory. |
| PrintfDirectives.MeaningTypes | gnulib/lib/printf-parse.c:82-632 | On acceptance every width, precision and value index other than ARG_NONE is below the count and holds exactly the type its use requires, and every record has its directive's bounds. |
| PrintfDirectives.MeaningArguments | gnulib/lib/printf-parse.c:125-128 | Argument slots hold a type exactly if some directive uses them, and the last slot is used. |
| PrintfDirectives.FlagSet | gnulib/lib/printf-parse.c:177-219 | A flag bit is set exactly if its character was written. |
| PrintfDirectives.TypeIs | gnulib/lib/printf-parse.c:445-562 | The type of every conversion from how often each size letter was written: two of `l`, `j`, `z`, `Z`, `t` or an `L` for long long (long double), one for long, `hh` for char, `h` for short. |
| PrintfRecords.MeaningRecords | gnulib/lib/printf-parse.c:137-580 | The bounds in every record delimit the directive's text, its width (`*` alone for an argument) and its precision with the dot; the seven flag bits are those of the flags written; `C` and `S` become `c` and `s`. |
| PrintfRecords.MeaningIndices | gnulib/lib/printf-parse.c:221-333 | The argument indices in every record are those that the text names, or else the next ones in order: width, precision, value. |
| PrintfRecords.NamedIs | gnulib/lib/printf-parse.c:153-175 | `n$` with n written in decimal names the argument of index n - 1. |
| PrintfRecords.MeaningWidest | gnulib/lib/printf-parse.c:613-614 | The maximum lengths are those of the longest width and precision recorded. |
| PrintfParse.SizeNext | gnulib/lib/printf-parse.c:338-395 | One more size letter changes the size bits as the code does. |
| PrintfParse.ChooseType | gnulib/lib/printf-parse.c:449-465 | The tests on the size bits choose the type that the written letters stand for. |
| PrintfParse.Convert | gnulib/lib/printf-parse.c:445-562 | The conversion letter is accepted exactly if it is one, with the type of letter and sizes. |
| PrintfParse.Parser.GrowArguments | gnulib/lib/printf-parse.c:103-124 | The grown array has room for index n and the old arguments; it fails only if an allocation does or the index is astronomical. |
| PrintfParse.Parser.RegisterArg | gnulib/lib/printf-parse.c:100-132 | Registers one argument as the specification does, and fails as invalid only when the types conflict. |
| PrintfParse.Parser.TakeArgument | gnulib/lib/printf-parse.c:253-260 | One argument, positional or next in order, is numbered as the specification numbers it. |
| PrintfParse.Parser.ReadNumber | gnulib/lib/printf-parse.c:162-165 | The saturating loop computes the value of the digits, or SIZE_MAX. |
| PrintfParse.Parser.ScanPosition | gnulib/lib/printf-parse.c:153-175 | Reads `n$` if it is there, refuses zero and too large, and otherwise consumes nothing. |
| PrintfParse.Parser.ReadFlags | gnulib/lib/printf-parse.c:177-219 | Consumes the whole run of flags and collects its bits. |
| PrintfParse.Parser.ParseWidth | gnulib/lib/printf-parse.c:221-273 | Consumes the width that stands here, records its bounds, its argument and the maximum length. |
| PrintfParse.Parser.ParsePrecision | gnulib/lib/printf-parse.c:275-333 | The same for the precision. |
| PrintfParse.Parser.ReadSizes | gnulib/lib/printf-parse.c:335-443 | Consumes the whole run of size letters and collects its bits. |
| PrintfParse.Parser.ReadDirective | gnulib/lib/printf-parse.c:137-580 | One directive is read into the record that its syntax determines, or refused only when it is malformed or its arguments conflict. |
| PrintfParse.Parser.GrowDirectives | gnulib/lib/printf-parse.c:583-602 | The grown array has room for the next directive (and the sentinel) and keeps the old ones. |
| PrintfParse.Parser.ParseDirective | gnulib/lib/printf-parse.c:137-603 | One directive keeps all tables right, or shows that the format as a whole has no meaning. |
| PrintfParse.Parser.Run | gnulib/lib/printf-parse.c:82-632 | The whole parse returns the format's meaning, refuses only formats that have none, and gives up for lack of memory only if an allocation fails or the format is astronomically long or names such a position; every write to `dir[]` (sentinel included) and `arg[]` is in bounds. |
| Words.SubIs | gnulib/lib/memchr.c:144-147 | Subtracting byte by byte with borrow is subtraction modulo the word size. |
| WordShifts.ShlIs | gnulib/lib/memchr.c:92-109 | Shifting byte by byte is multiplication by a power of two modulo the word size, for every word and distance. |
| Words.ZeroTestIs | gnulib/lib/memchr.c:111-151 | For words of any number of bytes, ((w - ones) & ~w & highbits) is nonzero exactly when some byte is zero. |
| Words.PairTestIs | gnulib/lib/strchrnul.c:117-127 | The two-word test is nonzero exactly when either word has a zero byte. |
| Words.XorFilled | gnulib/lib/memchr.c:111-115 | The exclusive or with repeated copies of c turns the search for c into the search for zero. |
| Words.Double | gnulib/lib/memchr.c:92-109 | Shifting a partly filled word by its filled part and merging doubles the filled part. |
| Words.ShiftTwice | gnulib/lib/memchr.c:95-98 | Two shifts by 31 and 1 are one shift by 32. |
| StringScans.Repeat | gnulib/lib/memchr.c:89-109 | The loop fills a word of any size of at least four bytes with copies of 1 and of c. |
| StringScans.WordMapped | gnulib/lib/rawmemchr.c:52-57 | An aligned word that holds one readable byte is readable as a whole. |
| StringScans.ScanWords | gnulib/lib/memchr.c:142-151 | The word loop stops at a word with c, or with less than a word left, and has skipped no c. |
| StringScans.Memchr | gnulib/lib/memchr.c:57-169 | The position of the first c among n bytes, or none: the same as a byte-by-byte scan, for every start, alignment, length and byte order, reading only words the caller may read. |
| StringScans.Rawmemchr | gnulib/lib/rawmemchr.c:22-135 | The position of the first c. |
| StringScans.Strchrnul | gnulib/lib/strchrnul.c:22-141 | The position of the first c or of the terminator, whichever comes first. |
| Format.LinesOfFields | src/format.c:158-190 | What the writer prints reads back as the same lines. |
| Format.RoundTrip | src/format.c:39-190 | A record whose fields have no newline or NUL is loaded, after writing, as itself with trailing white space removed and null fields empty. |
| Format.LoadWriteLoad | src/format.c:39-190 | For every file that loads, load, write, load equals load if and only if no loaded field ends in white space (which a field can only do because of a NUL byte). |
| Format.LoadWriteLoadPlain | src/format.c:39-190 | For every file without NUL bytes that loads, it does, the three optional lines present or not. |
| Format.Stream.GetLine | src/format.c:51-69 | Successive reads give the lines of the file. |
| Format.ReadLine | src/format.c:51-69 | One line gives its text up to a NUL, without trailing white space; at the end an optional field is empty and a required one missing. |
| Format.ReadRequired | src/format.c:71-76 | Six lines are required: the fields in order, or failure exactly if the file is shorter. |
| Format.ReadOptional | src/format.c:77-79 | Three more are optional. |
| Format.Load | src/format.c:39-85 | Loads the record the text stands for; a short file gives null when quiet and ends the program otherwise. |
| Format.Write | src/format.c:158-190 | Writes all nine fields, a line each, null as an empty line. |
| Format.SetFields | src/format.c:94-112 | The record takes each option given, and a newline in any field is refused. |
| Format.New | src/format.c:87-156 | The record that is made has no newline in any field and is filled in option by option: an extension takes the place of a magic, the type follows from which of the two is given, mask and offset have defaults. Refused and prohibited arguments are told apart exactly; what is refused has neither or both of magic and extension, or an extension with a mask or an offset. |
| Format.CompletedPlain | src/format.c:94-154 | Every record that passes the newline check is free of newlines after the defaults are filled in. |
| Format.MadeRoundTrip | src/format.c:39-190 | Hence every record made by `binfmt_new` from NUL-free options survives writing and loading, up to trailing white space and null. |
| Format.EncodeIs | src/format.c:158-190 | The nine lines of a file, in order: package, type, offset, magic, mask, interpreter, detector, credentials, preserve. |
| Format.DecodeIs | src/format.c:39-85 | Nine lines without NULs and trailing white space are loaded as these nine fields, in this order. |
| Format.FieldIs | src/format.c:51-69 | A line's text ends before its trailing white space, or at a NUL. |
| Registry.Registry.constructor | src/update-binfmts.c:1118 | A run starts with an empty cache, on any directory and any kernel, in view or not. |
| Registry.Registry.LoadBinfmtMisc | src/update-binfmts.c:211-273 | Success outside test mode means that the file system is in view; a fault changes nothing, and registrations never change. |
| Registry.Registry.UnloadBinfmtMisc | src/update-binfmts.c:275-318 | The kernel keeps its registrations, in view or not any more, or loses all of them with the file system; nothing in test mode, or where it was not mounted. |
| Registry.Registry.LoadFormat | src/update-binfmts.c:320-331 | Adds the named record to the cache if it is a file and loads, and an entry already cached stays. |
| Registry.Registry.LoadAllFormats | src/update-binfmts.c:333-348 | After success the cache has every loadable record of the admin directory, cached ones first. |
| Registry.Registry.FindShared | src/update-binfmts.c:398-410 | Tells whether another cached record has an equal specification; Registry.DetectorsExactly says in which fields. |
| Registry.Registry.FindDetector | src/update-binfmts.c:391-411 | run-detectors is needed exactly if the record has a detector or another loadable record has an equal specification. |
| Registry.Registry.WriteRegister | src/update-binfmts.c:412-442 | The kernel gets exactly the described registration under this name, and a failed write leaves it alone. |
| Registry.Registry.Enable | src/update-binfmts.c:352-456 | Only this name's registration can change, an existing one never does; without faults a loadable record gets registered as the cache and directory say. |
| Registry.Registry.EnableWalk | src/update-binfmts.c:446-455 | Nested loads leave the cache as it is while it is walked over (HashTables.HashTable.WalkInserting), and without faults every cached name ends registered, in whatever order. |
| Registry.Registry.EnableAll | src/update-binfmts.c:443-456 | Without faults, if all records load, every name that was not registered gets registered as its record says, field by field, with run-detectors for a record that has a detector or agrees with another one of the directory in type, offset, magic and mask; registrations already there stay. |
| Registry.Registry.Disable | src/update-binfmts.c:458-510 | Success leaves a name unregistered that is in view; registrations are only ever removed, and only this one (except for the name "status"), and none that is out of view. |
| Registry.Registry.DisableAll | src/update-binfmts.c:511-524 | Without faults no admin directory name stays registered if the kernel's formats are in view; otherwise nothing changes. |
| Registry.Registry.DisableThenEnable | src/update-binfmts.c:443-524 | From any kernel state: after disabling all and enabling all, each admin directory name is registered exactly as a function of the admin directory, in whatever order the walks go, if and only if the kernel's formats were in view or none of these names was registered in another way; if they were in view, every registration is read off its record field by field, run-detectors standing in exactly as in EnableAll; registrations left over under other names are the old ones. |
| Registry.DetectorsExactly | src/format.c:214-220 | Where a record's own interpreter is another program, its name is registered with run-detectors if and only if the record has a detector or another loadable record of the directory has the same type, offset, magic and mask. |
| Registry.ExpectedIsRecorded | src/update-binfmts.c:391-442 | The registration that enabling a format writes has the fields of its record, run-detectors standing in as above. |
| Registry.Registry.Replace | src/update-binfmts.c:590-604 | The new record replaces the old one in one step or not at all; only the name and its ".tmp" change. |
| Registry.Registry.Prepare | src/update-binfmts.c:531-583 | An install goes on only for a name that is unowned or owned by the same package, and, without faults, exactly unless a format in view is unknown to the directory; an old registration in view is then gone. |
| Registry.Registry.StoreRecord | src/update-binfmts.c:586-611 | Without faults the record is in the directory, and what the cache has is registered unless the kernel has the name already. |
| Registry.Registry.Install | src/update-binfmts.c:527-612 | A name owned by another package keeps its file and registration; without faults the outcome of installing a complete record is determined, also for a format that only the kernel knows and for a registration that was out of view. |
| Registry.Registry.Remove | src/update-binfmts.c:617-664 | A record owned by another package stays, file and registration; without faults an own one disappears from directory and cache, and from the kernel if in view. |
| Registry.Registry.Import | src/update-binfmts.c:669-731 | A record owned by ":" or by another package than the imported file's keeps its file; without faults, any other complete record is written to the directory and what the cache then has is registered. |
| Registry.Registry.ImportNext | src/update-binfmts.c:743-751 | One turn of the import walk keeps what the walk has to keep; without faults one more import is in the directory and the names still to come are untouched. |
| Registry.Registry.ImportAll | src/update-binfmts.c:732-754 | Importing a directory keeps every locally owned record and changes others only for packages named in the imported files; without faults, if all files can be imported, all their records end in the directory, in whatever order it is read. |
| Registry.StillImportable | src/update-binfmts.c:743-751 | What could be imported when the walk began can still be imported when its turn comes, in spite of the stale cache. |
| Registry.ImportKeeps | src/update-binfmts.c:669-754 | One more import keeps what the imports before it kept, although the cache goes stale meanwhile. |
| Registry.KeptTrans | src/update-binfmts.c:1099-1161 | Ownership protection composes over successive commands. |
| Registry.Registry.Run | src/update-binfmts.c:1099-1161 | Each command keeps the ownership rule, test mode changes neither directory nor kernel, and without faults each command achieves what it is for (install, remove, import, enable, disable; one name or all). |
| Registry.Registry.RunAll | src/update-binfmts.c:1099-1161 | Over any sequence of commands, a loadable record of package Q is changed or deleted only by an install, remove or import acting for Q on that name, or because its name is the temporary file of a name that is installed or imported. |
| Reinstall.InstalledIs | src/update-binfmts.c:527-612 | For every complete record: what is registered after an install is what the directory then says if and only if the record in the cache (the old one, on a reinstall) and the written one, its trailing white space removed, agree on all that is registered; or, where a registration comes into view, if that is already so. If they agree, the registration is read off the record field by field. |
| Reinstall.ReinstallMisses | src/update-binfmts.c:606-611 | A package that reinstalls its format with a new interpreter leaves the old one registered. |
| Reinstall.BlankMisses | src/update-binfmts.c:606-611 | A first install of a magic that ends with a blank registers the blank, which the directory does not have. |
| Reinstall.InstallTwice | src/update-binfmts.c:1143 | A run of the program that ends in the former state. |
| Reinstall.InstallWithBlank | src/update-binfmts.c:1143 | A run of the program that ends in the latter state. |
| Reinstall.KeepStale | src/update-binfmts.c:368-380 | With the kernel's formats out of view and one of them stale, disabling all and enabling all keeps the stale one. |
| Registry.CachedTwice | src/update-binfmts.c:333-348 | Loading everything a second time changes nothing. |
| Registry.GetImport | src/update-binfmts.c:120-160 | The options of an import file are its `key value` lines, keys in lower case, the first of equal keys counting. |
| ImportFiles.ReadSettings | src/update-binfmts.c:120-160 | For every file made of lines `key value` or `key` (keys without white space, values without trailing white space) the options read are the first value of each key, in lower case letter by letter. |
| ImportFiles.SettingsRead | src/update-binfmts.c:120-160 | The same of the specification that the import actions use. |
| ImportFiles.PackageIs | src/update-binfmts.c:669-731 | The owner for which a file is imported is the value of its first line with the key package. |
| ImportFiles.DescribedIs | src/update-binfmts.c:669-731 | The record that a file describes is filled in from those options. |
| ImportFiles.LowerIs | src/update-binfmts.c:148-153 | Lower case changes the letters A to Z and nothing else. |
| ImportFiles.BaseNameIs | src/update-binfmts.c:669-731 | A file is imported under what is behind the last slash of its name. |
| Outcomes.InstallOutcome | src/update-binfmts.c:527-612 | From the options to the result: without faults, options that make a record with package and magic, for a name that is free or the package's own, end with that record in the directory as loaded, all other files but the temporary one and all other registrations unchanged, the name registered, and, if the name had no record, the registration as the new directory says, field by field. |
| Outcomes.ImportOutcome | src/update-binfmts.c:669-731 | The same from the lines of an import file. |
| Outcomes.RemoveOutcome | src/update-binfmts.c:617-664 | A name of the package is gone from the directory and, if in view, from the kernel; every other name is as it was. |
| Outcomes.EnableOutcome | src/update-binfmts.c:352-442 | A format that was not registered is registered as its record says, field by field, and no other name changes. |
| Outcomes.Unset | src/update-binfmts.c:412-442 | A record without an interpreter that needs no run-detectors is registered with the `(null)` of printf. |
| Find.ExpandEscape | src/find.c:44-76 | Every byte string, written with `\x` escapes and escaped where needed, expands back to itself. |
| Find.ExpandPieces | src/find.c:44-76 | Any mixture of characters and escapes with hex digits of either case expands to those characters and bytes, as long as no backslash is followed by an x. |
| Find.ExpandQuirks | src/find.c:59-65 | A sign or a blank before one hex digit is an escape, too, of that digit or its negative modulo 256. |
| Find.ExpandHex | src/find.c:44-76 | The in-place loop expands exactly the `\x` escapes that `strtol` accepts and copies everything else. |
| Find.LoadTargets | src/find.c:78-129 | Keeps, in directory order, the enabled records whose mask is as long as their magic or empty; a record that does not load ends the program. |
| Find.UsableAre | src/find.c:78-129 | In terms of the fields: a format is loaded if and only if its file is enabled and its record, magic and mask expanded, has a mask of the magic's length or none; loading ends the program if and only if an enabled record does not load. |
| Find.AtoiIs | src/find.c:154 | `atoi` of the decimal text of any number, behind blanks and a sign and before anything but a digit, is that number with that sign. |
| Find.UserMatchesKernel | src/find.c:193-201 | A user-space match implies that (byte XOR magic) AND mask is zero at every position. |
| Find.MatchesAgree | src/find.c:193-201 | User space and kernel accept the same bytes if and only if the mask is empty, or begins with a nonzero byte (else the code ignores it) and covers all bits of the magic. |
| Find.TryMagic | src/find.c:188-201 | Masking and comparing one segment accepts it exactly by that rule, in bounds of the buffer. |
| Find.CountBytes | src/find.c:143-157 | Computes how many bytes all magics need. |
| Find.NeededCovers | src/find.c:143-157 | That many bytes cover offset plus length of every magic, so every segment copy is in bounds. |
| Find.ReadBeginning | src/find.c:159-167 | The buffer holds the beginning of the file, and zero bytes beyond its end. |
| Find.MatchAll | src/find.c:182-208 | The list of candidates is exactly the matching formats, in order. |
| Find.FindInterpreters | src/find.c:131-236 | The result lists the matching formats whose detector succeeds, in order, then those without a detector, in order; a loaded magic format without mask and detector whose offset is the decimal text of k is in it if and only if the bytes of the file from k on, with zeros past its end, are the magic. |
| Find.InterpretersAre | src/find.c:131-236 | A format is in the result if and only if it was loaded, matches by extension or magic, and has no detector or one that accepts; magic matches satisfy the kernel's rule. |
| Find.FoundAt | src/find.c:188-201 | A magic format with offset k in decimal is found if and only if the bytes from k on, masked unless the mask begins with zero, are the magic, and its detector, if any, accepts. |
| Find.FoundByExtension | src/find.c:178-205 | A format of another type is found if and only if its magic, up to a zero byte, is the text behind the last dot of the path, and its detector, if any, accepts. |
| Find.InterpretersInOrder | src/find.c:208-236 | Formats with a detector come first; both parts are in the order of loading, each format as often as it was loaded. |
| ArrayList.List.Grow | gnulib/lib/gl_array_list.c:248-268 | Growing keeps the contents and makes room; failing (an allocation, or no size for the array) keeps everything. |
| ArrayList.List.AddAt | gnulib/lib/gl_array_list.c:350-368 | Inserts exactly at the position; aborts exactly beyond the end; out of memory changes nothing. |
| ArrayList.List.AddLast | gnulib/lib/gl_array_list.c:288-299 | Appends, or out of memory changes nothing. |
| ArrayList.List.RemoveAt | gnulib/lib/gl_array_list.c:393-409 | Removes exactly the element at the position, for positions in the list. |
| ArrayList.InsertedBack | gnulib/lib/gl_array_list.c:350-409 | An insertion keeps what is in front, moves what is behind by one, and is undone by the removal at its position. |
| ArrayList.Cursor.constructor | gnulib/lib/gl_array_list.c:465-484 | An iterator over a range has exactly that range still to visit. |
| ArrayList.Cursor.Next | gnulib/lib/gl_array_list.c:486-512 | Yields the elements still to visit in order, also after a removal of the last one yielded. |
| ArrayList.Sweep | gnulib/lib/gl_array_list.c:486-512 | A whole iteration that removes some of the elements it is handed visits every original element once, in order, and leaves exactly the others. |
| ArrayList.KeptIs | gnulib/lib/gl_array_list.c:486-512 | The elements left are those to be kept, all of them, in their order. |
| SortedList.HitIs | gnulib/lib/gl_array_list.c:536-577 | On a sorted list the outer bisection hits an equal element exactly if there is one. |
| SortedList.FindHit | gnulib/lib/gl_array_list.c:536-577 | The loop computes that hit, in bounds. |
| SortedList.FindLeft | gnulib/lib/gl_array_list.c:549-572 | The inner bisection, as written, ends at an index that depends on the position of the first equal element only, and never aborts. |
| SortedList.SortedIndexOf | gnulib/lib/gl_array_list.c:522-578 | On every sorted list: the abort occurs exactly for a bad range, -1 exactly when no element is equal, and otherwise the index where the inner search ends. |
| SortedList.FoundFirst | gnulib/lib/gl_array_list.c:549-572 | The index found is that of the first equal element f if and only if the inner bisection never probes f above its low end (line 568); otherwise it is f - 1, whose element is smaller. |
| SortedList.StrictSearch | gnulib/lib/gl_array_list.c:522-578 | On a strictly sorted list the index found is the unique equal element. |
| SortedList.NeverMissed | gnulib/lib/gl_array_list.c:549-572 | With a single equal element in the range line 568 does no harm. |
| SortedList.SearchAmongEqual | gnulib/lib/gl_array_list.c:564-568 | Searching 2 in [1,2,2,2] gives 0, whose element is 1. |
| SortedList.InsertionPoint | gnulib/lib/gl_array_list.c:608-634 | Everything before the point is at most, everything from it on at least, the new element. |
| SortedList.InsertSorted | gnulib/lib/gl_array_list.c:608-634 | Inserting at such a point keeps a list sorted. |
| SortedList.SortedAdd | gnulib/lib/gl_array_list.c:608-634 | Sorted insertion adds exactly one element and keeps the list sorted, or runs out of memory and changes nothing. |
| SortedList.SortedRemove | gnulib/lib/gl_array_list.c:636-645 | On every sorted list removal deletes the element that the search answers, succeeds exactly if an equal one occurs, and keeps the list sorted; on a strictly sorted list it deletes exactly the equal element, which then no longer occurs. |
| IntProps.LogBound | gnulib/lib/intprops.h:108-111 | 2^485 is less than 10^146. |
| IntProps.PowerBound | gnulib/lib/intprops.h:108-111 | Hence 2^b is less than ten to the power of the bound, for every b of at least 1. |
| IntProps.StrlenBound | gnulib/lib/intprops.h:108-111 | Every number below 2^b (and 2^b itself) has at most INT_BITS_STRLEN_BOUND(b) decimal digits. |
| IntProps.SignedBound | gnulib/lib/intprops.h:113-123 | Every value of a signed type, minus sign included, fits INT_STRLEN_BOUND: what gnulib/lib/strerror.c:58 relies on. |
| IntProps.SignedText | gnulib/lib/intprops.h:113-123 | The text in decimal of every value of a signed type, written out digit by digit with its sign, is no longer than the bound. |
| IntProps.AddExact | gnulib/lib/intprops.h:164-169 | The test is true exactly when the sum is out of range, and its own subtraction is in range. |
| IntProps.SubtractExact | gnulib/lib/intprops.h:171-176 | The test is true exactly when the difference is out of range, and its own addition is in range. |
| IntProps.NegateExact | gnulib/lib/intprops.h:178-183 | The test is true exactly when the negation is out of range. |
| IntProps.MultiplyExact | gnulib/lib/intprops.h:185-198 | The test is true exactly when the product is out of range, with C's truncating division. |
| IntProps.DivideExact | gnulib/lib/intprops.h:202-205 | The test is true exactly when the truncated quotient is out of range. |
| IntProps.QuotientIs | gnulib/lib/intprops.h:185-205 | The division of these tests is C's: the remainder is smaller than the divisor and has the sign of the dividend. |
| IntProps.LeftShiftExact | gnulib/lib/intprops.h:215-225 | The test is true exactly when the value times 2^b is out of range. |

## Left out

- Hash table: chains are sequences, so the identity of an overflow node is not modelled; nodes are counted. The tuning tests in floating point and the size computed from them are arbitrary, the hasher stays in range (else gnulib/lib/hash.c:253 aborts), and `hash_clear`, `hash_free`, the statistics and printing are not part of this model.
- HashNumbers.IsPrime: takes odd numbers of at least 11, the only ones that gnulib/lib/hash.c:472 passes.
- Getopt.ParseCommandLine: is not asked about a command line whose scan with `W;` goes on for ever or beyond argc, where the code reads outside argv; callers that move optind between calls and error messages are left out, and POSIXLY_CORRECT is a parameter.
- CommandLines.ReadCommandLine: writes no clusters of short options for a long-only program and no `W;`; these are read as Getopt.ParseCommandLine and the lemmas of OptionW say.
- OptionW.ReadsToEnd: is one way; the exact condition is that the scan is sound, which is what Getopt.ParseCommandLine requires.
- RealPath.Canonicalize: PATH_MAX is a parameter of at least 2 and MAXSYMLINKS is 20; the file system does not change during the call and its links hold no NUL bytes. What an unsuccessful call leaves in the caller's buffer is not modelled.
- ArgpHelp.Hol.MakeHol: leaves out sorting, clusters, visibility, headers and all layout of the help text; a shown letter is a claim (letter, group).
- ArgpParse.ParserInit: counts array slots, not bytes; the alignment of the one memory block that holds them all and its allocation are left out.
- ArgpParse.ParseOpt: tells the group and the key that its parser is called with; what the parsers do is not modelled.
- PrintfParse.Parser.Run: fixes one configuration (LP64, glibc, `char`, ISO C integers), and the count in `flags += 8` at the `l`, `L` and similar letters is not bounded by an int.
- Words.ZeroTestIs: words are sequences of bytes, least significant first; StringScans works with words of at least four bytes.
- StringScans.Memchr: memory is a sequence of readable bytes; that an aligned word is readable as a whole if one of its bytes is, is assumed of the pages of the memory, as the code does.
- Format.New: arguments are C strings; binfmt_print is left out.
- Registry.Registry.Install: names have no slash, and `rename_mv` replaces the target in one step or not at all, also where it falls back to `mv`. A null record or a record without package or magic ends in a state Crashed, about which nothing is claimed.
- Outcomes.InstallOutcome: takes option values that end in no white space; for the others, and for a name that has a record already, Reinstall.InstalledIs has the exact condition.
- ImportFiles.ReadSettings: takes keys and values as they are usually written; lines with other blanks or NULs are read as Registry.GetImport says.
- Registry.Registry.LoadBinfmtMisc: the host's interfaces, the module and the mount are one flag, whether the kernel's formats are in view.
- Registry.Registry.Enable: the kernel accepts every registration that is written; its own checks of the string are not part of this model.
- Registry.Registry.RunAll: `--display` and `--find` change nothing and are left out.
- Find.FindInterpreters: offsets are not negative and fit an int, reading the file succeeds or leaves zeros behind what was read, and a detector's outcome is a function of the format.
- SortedList.SortedRemove: in a list with equal elements removes what the search answers, which may be a smaller element (SortedList.FoundFirst).
- IntProps.LeftShiftExact: takes shifts up to the number of value bits.
- The macros `_GL_*_OVERFLOW` for mixed types, `error.c`, `strerror.c`, `argp-fmtstream.c` and the platform replacements hold little logic of their own.
