# Clank: a verified model of its hard core

Clank is a robot platform: a host program, a daemon on a microcontroller, and a copy of Google
Test with its macro language Pump. This project models the parts whose correctness is not
obvious from reading them, and proves what they are for.

* **Wire and file formats.** The check of the motor frames is a polynomial remainder that
  detects every burst of up to 16 bits (`Crc`). A printed configuration is read back as its tree,
  exactly when its fields hold no misleading separator or indentation (`ConfigurationTree`,
  `IndentedFile`, `IndentedPrinter`). A saved map is read back into an empty one
  as it was, exactly when no point of its path is empty or starts negative; what other maps make of
  the file is decided too (`SparseMap`). A printed command is cut into its four fields in place,
  exactly when they contain no misleading separator (`Command`).
* **Control.** A PWM pin on the daemon ramps to its set point, and the host's mirror of it
  becomes consistent (`Pwm`). The watchdog calls back only after an undisturbed wait, and never
  after it was stopped, in every interleaving of its thread with its clients; when a kick fails to
  put off the timeout (`Watchdog`) and when stopping it can hang (`WatchdogStop`) is decided
  exactly.
* **Algorithms of Google Test.** The regular expression matcher and the validator agree with the
  language of a pattern (`Regex`), and so do the name filters (`Glob`). The UTF-8 transcoder
  loses nothing (`Utf`). Four primality tests decide primality (`Primes`). A shuffle reaches each
  permutation in one way (`Shuffle`). Registration and shuffling keep death tests first
  (`Tests`, `UnitTest`), and shards partition the tests (`Sharding`). The XML output
  is read back as its text, up to carriage returns (`Xml`).
* **Pump.** The parser inverts the flattening of a program to tokens (`PumpParser`,
  `PumpSyntax`) and accepts nothing else (`PumpAccepts`), and the interpreter follows a scoped
  semantics (`PumpInterp`).

`Text`, `Streams`, `Numbers` and `Arithmetic` hold what several modules use: searching a text, files
read line by line, decimal numbers, and remainders. Code that updates fields or arrays is modelled by classes and
methods, and each method is proved against a function that the lemmas are about.

Where the code does less than its comments or its purpose suggest, the model follows the code,
and lemmas say where it falls short:

* The read-only `GetTestCase(i)` looks an index up and does not use it
  (`UnitTest.UnitTestImpl.ConstVariantIgnoresOrder`).
* `FullMatch` does not anchor the end of a pattern that ends in an escaped `$`
  (`Regex.FullMatchExact`).
* `Deserialize` takes a point with a negative first coordinate for the separator line, and adds to
  what the map holds instead of replacing it (`SparseMap.IdentityExactly`, `SparseMap.HeldStays`).
* The line number in an exception of the configuration reader leaves out the lines of children that
  were complete (`IndentedPrinter.FailureExplained`).
* Text in elements and CDATA sections loses its carriage returns when it is read
  (`Xml.TextRoundTrip`, `Xml.CDataRoundTrip`).
* The Pump parser drops blank code after an `$if` without `$else` (`PumpSyntax.ParsesExactly`).
* `Kick` does not always put off the timeout, and `Stop` may never return
  (`Watchdog.KickFailsExactly`, `WatchdogStop.StopHangsExactly`).
* A report of the daemon that does not fit its buffer is not repeated, so that the host can keep
  its old numbers until another report is sent (`Pwm.ConsistentExactly`, `Pwm.LostUntilSent`).

## Model

| member | source | states |
|---|---|---|
| `Crc.ClawMotorController.ComputeCRC` | clank/lib/motor/ClawMotor/ClawMotorController.cpp:293-316 | The loops over bytes and bits leave the value of the 32-bit register after the bytes in the buffer |
| `Crc.ClawMotorController.SetMotor1Velocity` | clank/lib/motor/ClawMotor/ClawMotorController.cpp:201-211 | The buffer holds the command with its two check bytes, and it is written unless the mutex is still locked; the velocity is recorded exactly if the controller acknowledges, and after any other answer the mutex stays locked, at which every later command blocks |
| `Crc.ClawMotorController.SetMotor2Velocity` | clank/lib/motor/ClawMotor/ClawMotorController.cpp:229-239 | The same with the command bytes of the second motor |
| `Crc.ClawMotorController.WriteAndVerify` | clank/lib/motor/ClawMotor/ClawMotorController.cpp:252-291 | Only an acknowledged command unlocks the mutex again |
| `Crc.SpeedByteNumber` | clank/lib/motor/ClawMotor/ClawMotorController.cpp:204-206 | The byte that is sent for a velocity of up to 100 percent is its magnitude in 127ths, rounded down |
| `Crc.ToByteNumber` | clank/lib/motor/ClawMotor/ClawMotorController.cpp:202-206 | The bits of a byte are those of the number modulo 256 |
| `Crc.OutcomeExactly` | clank/lib/motor/ClawMotor/ClawMotorController.cpp:252-291 | A command blocks exactly at the locked mutex and is acknowledged exactly by the byte 0xFF |
| `Crc.RegisterLinear` | clank/lib/motor/ClawMotor/ClawMotorController.cpp:293-316 | The register of the exclusive-or of two messages is the exclusive-or of their registers |
| `Crc.RegisterIsRun` | clank/lib/motor/ClawMotor/ClawMotorController.cpp:293-316 | In its low half the never-masked register equals a serial register that takes the message bit by bit |
| `Crc.FrameChecksToZero` | clank/lib/motor/ClawMotor/ClawMotorController.cpp:203-209 | A message followed by its check, high byte first, has check 0 |
| `Crc.BurstDetected` | clank/lib/motor/ClawMotor/ClawMotorController.cpp:203-209 | Every error within 16 contiguous bits of a frame, check bytes included, gives a non-zero check |
| `Crc.CheckIsRemainder` | clank/lib/motor/ClawMotor/ClawMotorController.cpp:293-316 | A polynomial is the remainder of message times x^16 by x^16+x^12+x^5+1 over GF(2) if and only if it is the low half of the register |
| `Regex.ValidateRegex` | clank/lib/gtest/src/gtest-port.cc:257-311 | The scan accepts exactly the printed forms of well-formed patterns |
| `Regex.ParseIsInverse` | clank/lib/gtest/src/gtest-port.cc:257-311 | A pattern text has at most one structure, and parsing finds it |
| `Regex.ScanDecides` | clank/lib/gtest/src/gtest-port.cc:257-311 | The one-pass scan with its flag succeeds exactly if the text parses |
| `Regex.ItemsExactly` | clank/lib/gtest/src/gtest-port.cc:208-224 | Escapes are the eleven letters and the graphic ASCII characters that are neither letters nor digits; all but the thirteen special characters and the backslash stand for themselves |
| `Regex.ClassesExactly` | clank/lib/gtest/src/gtest-port.cc:210-242 | The escapes d, s and w are the digits, the six white space characters, and letters, digits and underscore; D, S and W are their complements |
| `Regex.SinglesExactly` | clank/lib/gtest/src/gtest-port.cc:228-246 | Any other escape or character matches one character, a dot all but a newline |
| `Regex.RepeatsExactly` | clank/lib/gtest/src/gtest-port.cc:320-341 | `?` is nothing or the atom, `+` the atom and then any number of it, `*` nothing or that |
| `Regex.MatchRepetitionAndRegexAtHead` | clank/lib/gtest/src/gtest-port.cc:320-341 | The backtracking loop succeeds exactly if some allowed number of repetitions leaves a tail that matches |
| `Regex.MatchRegexAtHead` | clank/lib/gtest/src/gtest-port.cc:347-378 | The recursive matcher terminates and succeeds exactly if a prefix of the text, all of it before `$`, is in the language |
| `Regex.MatchRegexAnywhere` | clank/lib/gtest/src/gtest-port.cc:383-396 | The search succeeds exactly if a suitable substring is in the language |
| `Regex.MatchesHeadSplit` | clank/lib/gtest/src/gtest-port.cc:320-341 | Matching a repeated atom and a rest is splitting the text after some number of repetitions |
| `Regex.RE.Init` | clank/lib/gtest/src/gtest-port.cc:417-448 | The pattern is kept, and the anchored pattern is built if it is valid |
| `Regex.RE.FullMatch` | clank/lib/gtest/src/gtest-port.cc:406-408 | A full match searches for the anchored form of a valid pattern |
| `Regex.RE.PartialMatch` | clank/lib/gtest/src/gtest-port.cc:412-414 | A partial match succeeds exactly if the pattern is valid and a suitable substring is in its language |
| `Regex.FullPatternText` | clank/lib/gtest/src/gtest-port.cc:428-447 | The text that `Init` builds parses to the anchored pattern |
| `Regex.FullMatchIsWholeString` | clank/lib/gtest/src/gtest-port.cc:417-448 | What a full match finds, with and without an escaped `$` at the end of the pattern |
| `Regex.FullMatchExact` | clank/lib/gtest/src/gtest-port.cc:443-445 | A full match is membership of the whole string for all strings if and only if the pattern does not end in an escaped `$` |
| `Utf.CodePointToUtf8` | clank/lib/gtest/src/gtest.cc:1436-1462 | The buffer filled from its end holds the shortest form; code point 0 gives the empty string and one above 0x1FFFFF a message |
| `Utf.WideStringToUtf8` | clank/lib/gtest/src/gtest.cc:1500-1521 | The loop emits the code points of the units, joining surrogate pairs within the limit |
| `Utf.CodePointsExactly` | clank/lib/gtest/src/gtest.cc:1471-1517 | A unit from 0xD800 to 0xDBFF with one from 0xDC00 to 0xDFFF after it stand for one code point above 0xFFFF, any other unit and every 32-bit unit for itself |
| `Utf.LimitedIs` | clank/lib/gtest/src/gtest.cc:1500-1510 | A limit that is not negative gives the units up to it, -1 all of them |
| `Utf.InvalidIsTold` | clank/lib/gtest/src/gtest.cc:1436-1439 | For a number above 0x1FFFFF the text ends in its hexadecimal digits |
| `Utf.EncodeShortest` | clank/lib/gtest/src/gtest.cc:1409-1462 | The encoding is a form of its code point, and no form of it is shorter |
| `Utf.EncodePrefixFree` | clank/lib/gtest/src/gtest.cc:1409-1462 | No encoding is a prefix of another |
| `Utf.DecodeUtf8` | clank/lib/gtest/src/gtest.cc:1436-1462 | Decoding the encoded code points gives them back |
| `Utf.Utf16Lossless` | clank/lib/gtest/src/gtest.cc:1471-1521 | Decoding the bytes of any NUL-free 16-bit string and encoding as UTF-16 gives back its units, unpaired surrogates included |
| `Utf.Utf32Lossless` | clank/lib/gtest/src/gtest.cc:1436-1521 | Decoding the bytes of a NUL-free 32-bit string gives back its units if and only if none is above 0x1FFFFF |
| `Primes.OnTheFlyPrimeTable.IsPrime` | clank/lib/gtest/samples/prime_tables.h:58-67 | Trial division decides primality |
| `Primes.OnTheFlyPrimeTable.GetNextPrime` | clank/lib/gtest/samples/prime_tables.h:69-75 | The search terminates with the least prime above p, for p >= 0 |
| `Primes.PrimeAbove` | clank/lib/gtest/samples/prime_tables.h:69-75 | Above every number there is a prime (Euclid), so that the search ends |
| `Primes.IsPrime` | clank/lib/gtest/samples/sample1.cc:49-70 | Trial division by 2 and odd numbers decides primality |
| `Primes.PreCalculatedPrimeTable.IsPrime` | clank/lib/gtest/samples/prime_tables.h:89-91 | The table answers true exactly for the primes in its range |
| `Primes.PreCalculatedPrimeTable.GetNextPrime` | clank/lib/gtest/samples/prime_tables.h:93-99 | The least prime above p in the table, or -1 if it has none |
| `Primes.CalculatePrimesUpTo` | clank/lib/gtest/samples/prime_tables.h:102-114 | The sieve leaves exactly the primes marked |
| `Primes.HybridPrimeTable.IsPrime` | clank/lib/gtest/samples/sample8_unittest.cc:62-67 | The hybrid decides primality inside and outside its table |
| `Primes.HybridPrimeTable.GetNextPrime` | clank/lib/gtest/samples/sample8_unittest.cc:69-75 | For p >= 0 the least prime above p, whichever part finds it |
| `Glob.MatchIsLanguage` | clank/lib/gtest/src/gtest.cc:440-455 | The recursive matcher accepts exactly the concatenations of words of the pattern's characters |
| `Glob.MatchesFilter` | clank/lib/gtest/src/gtest.cc:457-476 | A name matches a filter exactly if it is in the language of one of the parts between colons |
| `Glob.FilterMatchesTest` | clank/lib/gtest/src/gtest.cc:480-506 | A test passes exactly if its full name matches the part before the first dash, all names if that part is empty, and not the part after it |
| `Glob.PassesExactly` | clank/lib/gtest/src/gtest.cc:480-506 | The first dash parts the patterns of the names to run, all names if there are none, from those of the names to leave out |
| `Glob.MatchingExactly` | clank/lib/gtest/src/gtest.cc:457-476 | A list matches a name if the pattern before its first colon does or the rest does |
| `Glob.SplitExactly` | clank/lib/gtest/src/gtest.cc:457-476 | The parts of a text are free of the separator and make up the text again |
| `Shuffle.Random.Generate` | clank/lib/gtest/src/gtest.cc:291-306 | The next state of the generator, and a number below the range |
| `Shuffle.NextStateIsLinear` | clank/lib/gtest/src/gtest.cc:289-294 | The step starts from 0 with 12345 and rises by 1103515245, modulo 2^31 |
| `Shuffle.DrawsExactly` | clank/lib/gtest/src/gtest-internal-inl.h:304-326 | A shuffle of a width draws one number fewer, in the order of the generator, the i-th below the width less i |
| `Shuffle.ShuffleRange` | clank/lib/gtest/src/gtest-internal-inl.h:311-328 | The loop of swaps performs the shuffle that the drawn choices determine, and advances the generator once a draw |
| `Shuffle.ShuffledRearranges` | clank/lib/gtest/src/gtest-internal-inl.h:311-328 | A shuffle permutes its range and leaves the elements outside it |
| `Shuffle.ShuffleBijective` | clank/lib/gtest/src/gtest-internal-inl.h:311-328 | Each permutation of a range of distinct elements is given by exactly one sequence of choices in range |
| `UnitTest.RegistrationStable` | clank/lib/gtest/src/gtest.cc:4173-4206 | After any registrations the names are the death test cases and then the others, each in the order of their first registration |
| `UnitTest.UnitTestImpl.GetTestCase` | clank/lib/gtest/src/gtest.cc:4173-4206 | An existing test case is found, and a new one inserted after the last death test or at the end, with the next index |
| `UnitTest.UnitTestImpl.ShuffleTests` | clank/lib/gtest/src/gtest.cc:4601-4613 | The exact indices and test orders that the stream of random numbers gives; death test cases keep the first positions and each order is a permutation |
| `UnitTest.UnitTestImpl.CasesShuffledExactly` | clank/lib/gtest/src/gtest.cc:4601-4613 | The death test cases are shuffled by the first numbers, the others by those after them, and the tests of the test cases by the rest |
| `UnitTest.UnitTestImpl.UnshuffleTests` | clank/lib/gtest/src/gtest.cc:4616-4623 | All indices are the identity again |
| `UnitTest.UnitTestImpl.GetMutableTestCase` | clank/lib/gtest/src/gtest-internal-inl.h:593-596 | A test case exactly for the positions in range |
| `UnitTest.UnitTestImpl.DeathTestsRunFirst` | clank/lib/gtest/src/gtest.cc:4601-4613 | In running order every test case occurs, and no death test comes after another test |
| `UnitTest.UnitTestImpl.ConstVariantIgnoresOrder` | clank/lib/gtest/src/gtest-internal-inl.h:586-596 | The read-only lookup agrees with the other exactly while the indices are the identity |
| `UnitTest.ShuffledExample` | clank/lib/gtest/src/gtest-internal-inl.h:586-596 | Two test cases that are registered and shuffled with seed 1 come in the other order, and the two lookups differ on the first |
| `Tests.TestCase.AddTestInfo` | clank/lib/gtest/src/gtest.cc:2423-2426 | A test and its index are appended |
| `Tests.TestCase.ShuffleTests` | clank/lib/gtest/src/gtest.cc:2463-2465 | The indices are shuffled by the numbers that follow the state of the generator |
| `Tests.TestCase.UnshuffleTests` | clank/lib/gtest/src/gtest.cc:2468-2472 | The indices are the identity again |
| `Sharding.FilterTests` | clank/lib/gtest/src/gtest.cc:4455-4506 | Every test is marked with the verdict of the filters and with its selection, every test case with whether one of its tests is selected, and their number is returned |
| `Sharding.PickedExactly` | clank/lib/gtest/src/gtest.cc:4460-4505 | A test is picked on some shard, and without sharding, if and only if its full name passes the filter and, unless disabled tests run too, neither its own name nor that of its test case is disabled |
| `Sharding.EachTestOnOneShard` | clank/lib/gtest/src/gtest.cc:4444-4506 | A test is selected on exactly one of the shards if it is runnable and on none otherwise |
| `Sharding.SelectedIsShare` | clank/lib/gtest/src/gtest.cc:4455-4506 | The number selected on a shard is its share of the runnable tests |
| `Sharding.ShardsBalanced` | clank/lib/gtest/src/gtest.cc:4455-4506 | The numbers selected on two shards differ by at most one |
| `Xml.EscapeXml` | clank/lib/gtest/src/gtest.cc:3139-3180 | The loop appends the escaped form of each character |
| `Xml.RemoveInvalidXmlCharacters` | clank/lib/gtest/src/gtest.cc:3185-3194 | The loop keeps exactly the characters valid in XML, in their order |
| `Xml.ValidPartOfOne` | clank/lib/gtest/src/gtest.cc:3021-3029 | Of the 7-bit characters those are kept that XML allows: tab, newline, carriage return and 0x20 to 0x7F (section 2.2 of XML 1.0) |
| `Xml.ValidPartOfTwo` | clank/lib/gtest/src/gtest.cc:3185-3194 | What is kept of a text is what is kept of its parts, in their order |
| `Xml.AttributeRoundTrip` | clank/lib/gtest/src/gtest.cc:3021-3180 | An attribute value, with line ends, references and normalisation resolved (sections 2.11, 3.3.3 and 4.6 of XML 1.0), is the text without invalid characters, carriage returns included |
| `Xml.TextRoundTrip` | clank/lib/gtest/src/gtest.cc:3139-3180 | Escaped character data is read back as the text without invalid characters and with its line ends made newlines; as that text itself if and only if it has no carriage return (section 2.11 of XML 1.0) |
| `Xml.AttributeIdentityExactly` | clank/lib/gtest/src/gtest.cc:3021-3180 | A 7-bit attribute value comes back as it was if and only if XML allows all its characters |
| `Xml.TextIdentityExactly` | clank/lib/gtest/src/gtest.cc:3139-3180 | Character data does if and only if, besides, it has no carriage return |
| `Xml.OutputXmlCDataSection` | clank/lib/gtest/src/gtest.cc:3246-3263 | The loop writes the sections into which the text is split at each `]]>` |
| `Xml.CDataRoundTrip` | clank/lib/gtest/src/gtest.cc:3246-3263 | The sections are read back as the text with its line ends made newlines, for any number of `]]>` in it, overlapping or not (section 2.7 of XML 1.0); as the text itself if and only if it has no carriage return |
| `ConfigurationTree.Configuration.AddChildConfiguration` | clank/lib/configuration/Configuration.cpp:53-56 | The child is appended to the tree, and nothing else changes |
| `ConfigurationTree.Configuration.AddConfigurationData` | clank/lib/configuration/Configuration.cpp:58-61 | The value is set for the key, and nothing else changes |
| `ConfigurationTree.Configuration.GetConfigurationData` | clank/lib/configuration/Configuration.cpp:63-74 | The value of a key that is present, and the empty string otherwise |
| `ConfigurationTree.Configuration.FindConfigurationByTag` | clank/lib/configuration/Configuration.cpp:34-51 | All fields of the first node with the tag in the order of tag lines are copied into the given object, which may be one of the tree; without such a node nothing changes |
| `IndentedFile.GetLevel` | clank/lib/configuration/IndentedFileConfigurationReader.cpp:90-105 | Half of the number of leading spaces, which are all spaces |
| `IndentedFile.FormatTag` | clank/lib/configuration/IndentedFileConfigurationReader.cpp:107-123 | Succeeds exactly for an indented line with only white space after its first colon, or blank without one, and gives the text before it |
| `IndentedFile.FormatKeyValuePair` | clank/lib/configuration/IndentedFileConfigurationReader.cpp:125-145 | Succeeds exactly for an indented line with only white space after its first semicolon, or blank without one, with the key and value that the wrapped positions give |
| `IndentedFile.TagWraps` | clank/lib/configuration/IndentedFileConfigurationReader.cpp:107-123 | The tag is the substring between unsigned 64-bit positions, which wrap around when there is no colon |
| `IndentedFile.PairWraps` | clank/lib/configuration/IndentedFileConfigurationReader.cpp:125-145 | So are key and value, whichever separator is missing or comes too early |
| `IndentedFile.IndentedFileConfigurationReader.ReadConfigurationHelper` | clank/lib/configuration/IndentedFileConfigurationReader.cpp:14-60 | The recursive reader terminates and builds the objects of the tree that the lines denote, or fails with the same exception, and leaves the lookahead and the rest |
| `IndentedFile.IndentedFileConfigurationReader.ReadFromFile` | clank/lib/configuration/IndentedFileConfigurationReader.cpp:62-88 | A file is read as its tree with a root without parent, or fails without a first tag |
| `IndentedPrinter.ReadsEntries` | clank/lib/configuration/IndentedFileConfigurationReader.cpp:14-60 | Reading the printed entries of a node at any level adds exactly their children and values and stops before what follows |
| `IndentedPrinter.ReadsReadable` | clank/lib/configuration/IndentedFileConfigurationReader.cpp:13-145 | Whatever is read, every line taken is a tag or a value line, and names come back without colons and with at most one leading space |
| `IndentedPrinter.FailureExplained` | clank/lib/configuration/IndentedFileConfigurationReader.cpp:13-60 | An exception of the reader names a line up to which all are tag or value lines below the node, and which is neither or is indented by more than one level; its number counts exactly the lines before it that belong to unfinished nodes |
| `IndentedPrinter.FileFailureExplained` | clank/lib/configuration/IndentedFileConfigurationReader.cpp:13-88 | The same for a whole file, whose first line, if it is no tag line, has number 1 |
| `IndentedPrinter.RoundTrip` | clank/lib/configuration/IndentedFileConfigurationReader.cpp:13-145 | Reading back a printed configuration, keys and children in any order, gives its tags, its children in order and its map, and leaves what follows, if and only if no name contains a colon and, below the first line, none starts with two spaces, no key or value contains a semicolon, and what follows starts with an empty line or one without indentation, or is nothing |
| `IndentedPrinter.TextRoundTrip` | clank/lib/configuration/IndentedFileConfigurationReader.cpp:13-145 | The same for the characters of the file, for fields without newlines |
| `IndentedPrinter.FindsFirstTagLine` | clank/lib/configuration/Configuration.cpp:34-51 | In the configuration read from any file that is accepted, the node found for a tag is that of the first such tag line among the lines read |
| `IndentedPrinter.NodesInFileOrder` | clank/lib/configuration/IndentedFileConfigurationReader.cpp:13-60 | The tags of the nodes, in the order of the search, are those of the tag lines of the file up to where reading stopped |
| `Streams.Stream.GetLine` | clank/lib/configuration/IndentedFileConfigurationReader.cpp:19-20 | The next line is taken; the first attempt at the end gives the empty string and later ones leave the string alone |
| `Streams.LinesOfUnlines` | clank/lib/navigation/SparseMap.cpp:98-118 | Lines without newlines that are written with newlines are read back |
| `SparseMap.SparseMap.Serialize` | clank/lib/navigation/SparseMap.cpp:98-118 | The text is the lines of the corners, the obstacles, a dash and the path |
| `SparseMap.SerializePoint` | clank/lib/navigation/SparseMap.cpp:266-280 | A line with the coordinates and commas between them is appended |
| `SparseMap.PointLineExactly` | clank/lib/navigation/SparseMap.cpp:266-280 | The coordinates are printed with commas between them |
| `SparseMap.DeserializePoint` | clank/lib/navigation/SparseMap.cpp:282-301 | The numbers between the commas of the next line, a blank one keeping the number before it |
| `SparseMap.ExtractedExactly` | clank/lib/navigation/SparseMap.cpp:292-296 | A token of white space keeps the number before it, another is the number it starts with, or 0 |
| `SparseMap.SerializeObstacle` | clank/lib/navigation/SparseMap.cpp:303-324 | The number of corners, the corners and the severity are appended |
| `SparseMap.DeserializeObstacle` | clank/lib/navigation/SparseMap.cpp:326-353 | The corners and the severity, or no obstacle if a number is missing; at the end of the file the old line is read again |
| `SparseMap.ReadsObstacleExactly` | clank/lib/navigation/SparseMap.cpp:326-353 | An obstacle takes as many lines as it has corners and two more; if only the last is missing there is none, and if more are the missing corners are empty and the severity is their number |
| `SparseMap.SparseMap.ReadNext` | clank/lib/navigation/SparseMap.cpp:131-151 | The body of the loop takes a line, a point or an obstacle, fails in `stoi`, or does nothing |
| `SparseMap.SparseMap.Deserialize` | clank/lib/navigation/SparseMap.cpp:120-154 | The map that the lines denote is loaded, and the source's loop ends in that way: at the end of the file, in an exception, or never, in which case the method returns |
| `SparseMap.UnprintableStays` | clank/lib/navigation/SparseMap.cpp:130-151 | At a line that starts with no printable character the body changes neither the stream nor the mode nor the map, so that after any number of iterations the loop goes on |
| `SparseMap.RestIsLoop` | clank/lib/navigation/SparseMap.cpp:130-151 | What the lines denote is how the iterated body ends and with which map, for all lines |
| `SparseMap.RoundTrip` | clank/lib/navigation/SparseMap.cpp:98-154 | Reading a written map, whose path has no point without coordinates, into any map replaces both corners, adds every obstacle in order with its severity to those held, and adds the points of the path whose first coordinate is not negative |
| `SparseMap.IdentityExactly` | clank/lib/navigation/SparseMap.cpp:120-154 | A written map is read back as it was if and only if the map it is read into has no obstacles, every point of the path has coordinates, and the path begins with the points held by that map, which are exactly its points that start negative; for an empty map: none starts negative |
| `SparseMap.HeldStays` | clank/lib/navigation/SparseMap.cpp:144-148 | A file that an empty map reads back as it was is not read back so by a map that holds an obstacle |
| `SparseMap.EmptyPointNeverEnds` | clank/lib/navigation/SparseMap.cpp:98-151 | On the file of a map whose path has a point without coordinates the loop goes on after any number of iterations, whatever map it is read into |
| `SparseMap.TextHasLines` | clank/lib/navigation/SparseMap.cpp:98-118 | The text that is written has exactly the lines of the map |
| `SparseMap.SeparatorsStand` | clank/lib/navigation/SparseMap.cpp:98-118 | The file has an empty line after the corners and a dash before the path |
| `Numbers.PrintReads` | clank/lib/navigation/SparseMap.cpp:266-301 | A printed integer is read back, and starts with a dash exactly if it is negative |
| `Numbers.IntegerExactly` | clank/lib/navigation/SparseMap.cpp:339-349 | A number is white space, a sign or none, and the digits up to what is none; without digits there is none |
| `Numbers.ValueExactly` | clank/lib/navigation/SparseMap.cpp:339-349 | The digits count from 0 to 9, in tens |
| `Command.Command.Parse` | clank/lib/communication/Command.cpp:90-122 | Succeeds exactly if all separators occur; the four strings in the overwritten buffer are those of the cut text, whatever the buffer held before |
| `Command.IsCommandExactly` | clank/lib/communication/Command.cpp:101-107 | A text is accepted if and only if it has a colon, a dot, a closing bracket and a `=(` |
| `Command.FieldIs` | clank/lib/communication/Command.cpp:107-118 | A field goes from its start to the next of the first separators, the end of the text, or a NUL |
| `Command.CutsExactly` | clank/lib/communication/Command.cpp:101-104 | The first separators are the printed ones if and only if the fields are free of them |
| `Command.ParsesPrinted` | clank/lib/communication/Command.cpp:90-128 | Parsing a printed command gives its four fields if and only if no field contains a separator that is looked for from there on |
| `PumpParser.ParseElseNode` | clank/lib/gtest/scripts/pump.py:475-500 | Takes a branch, skips blank code before it, or takes nothing, and leaves the other tokens |
| `PumpParser.ParseAtomicCodeNode` | clank/lib/gtest/scripts/pump.py:503-561 | Takes one piece of code, or puts back a token that starts none |
| `PumpParser.ParseCodeNode` | clank/lib/gtest/scripts/pump.py:564-574 | Takes pieces as long as there are some, by a loop over the shared list |
| `PumpParser.ParseToAST` | clank/lib/gtest/scripts/pump.py:577-581 | The code of all tokens, and those that are left |
| `PumpSyntax.ProgramReads` | clank/lib/gtest/scripts/pump.py:475-574 | Parsing the tokens of a program before the end or a closing bracket gives its nodes and leaves what follows |
| `PumpSyntax.ProgramParses` | clank/lib/gtest/scripts/pump.py:577-581 | Parsing the tokens of a program leaves none |
| `PumpSyntax.ParsesExactly` | clank/lib/gtest/scripts/pump.py:496-498 | The parser gives the whole tree if and only if no blank raw code follows an `$if` whose chain has no `$else` |
| `PumpAccepts.AtomsAre` | clank/lib/gtest/scripts/pump.py:475-574 | Whatever tokens the parser takes are, but for the values it ignores, those of a program, and it gives the nodes of that program |
| `PumpAccepts.AcceptsExactly` | clank/lib/gtest/scripts/pump.py:475-581 | A list of tokens is taken as a whole if and only if it is that of a program |
| `PumpInterp.Env.PushVariable` | clank/lib/gtest/scripts/pump.py:595-603 | The variable is bound in front, to an integer if its text is what an integer shows as |
| `PumpInterp.Env.GetValue` | clank/lib/gtest/scripts/pump.py:614-620 | The newest value of a variable, or none |
| `PumpInterp.Env.GetRange` | clank/lib/gtest/scripts/pump.py:632-638 | The newest range of a name, or none |
| `PumpInterp.StoredShows` | clank/lib/gtest/scripts/pump.py:595-603 | Storing a value keeps the text it shows as, and makes integers of exactly the texts that show integers |
| `PumpInterp.RunAtomicCode` | clank/lib/gtest/scripts/pump.py:656-699 | Running a node goes on exactly if its meaning is defined, and changes the scope and appends the text as the meaning says |
| `PumpInterp.IfTakesBranch` | clank/lib/gtest/scripts/pump.py:683-688 | `$if` gives what its first branch gives if the value is a number other than 0, a text that is not empty, or otherwise true, and else what its second branch gives, or nothing |
| `PumpInterp.RangeLoops` | clank/lib/gtest/scripts/pump.py:663-680 | `$range` and `$for` give the texts of the code from the first bound to the second, both included, joined by the separator |
| `PumpInterp.WholeTextExactly` | clank/lib/gtest/scripts/pump.py:663-667 | A bound that is a text is white space, a sign or none, digits, and white space; any other text exits |
| `PumpInterp.TextAppears` | clank/lib/gtest/scripts/pump.py:681-693 | Raw code and a literal dollar sign give their text, an expression what its value shows as |
| `PumpInterp.RunCodeNode` | clank/lib/gtest/scripts/pump.py:702-704 | The same for the nodes of code in order |
| `PumpInterp.RunLoop` | clank/lib/gtest/scripts/pump.py:675-680 | The same for the loop of `$for`, in a fresh copy of the scope each time |
| `PumpInterp.LoopIsJoin` | clank/lib/gtest/scripts/pump.py:668-680 | `$for` gives the texts of its code for the values from lower to upper joined by the separator, nothing if there are none, and exits exactly if one of them does |
| `PumpInterp.AtomsScope` | clank/lib/gtest/scripts/pump.py:656-704 | Code adds the bindings of its own `$var`s and `$range`s in front and changes no other: those made in nested code, loops and branches are gone |
| `PumpInterp.AtomsSame` | clank/lib/gtest/scripts/pump.py:614-704 | The effect of code depends only on what lookups find, not on shadowed bindings |
| `PumpInterp.VariableHoldsText` | clank/lib/gtest/scripts/pump.py:657-662 | After `$var` an expression that looks the variable up gives the text of its code |
| `Pwm.DaemonPin.Init` | clank/SAM/libs/PwmPin.c:5-21 | A pin from 2 to 13 starts disabled at duty 0 with nothing reported; another is left alone |
| `Pwm.DaemonPin.Enable` | clank/SAM/libs/PwmPin.c:23-30 | The pin is enabled at duty 0 |
| `Pwm.EnabledIsOff` | clank/SAM/libs/PwmPin.c:23-30 | From any state and after any reports an enabled pin that is not set has duty and set point 0 and no ramp |
| `Pwm.DisabledStops` | clank/SAM/libs/PwmPin.c:32-179 | A disabled pin moves at most once more, when it reports that it is disabled, and sends no levels |
| `Pwm.FirstReportSends` | clank/SAM/libs/PwmPin.c:5-86 | A pin that was enabled from fresh sends its levels as soon as it has reported that |
| `Pwm.DaemonPin.Report` | clank/SAM/libs/PwmPin.c:32-86 | The pin moves a step and counts its levels as reported; the message is written exactly if it fits |
| `Pwm.DaemonPin.Process` | clank/SAM/libs/PwmPin.c:88-131 | A value message with its fields, told by the beginnings of its words, sets the point and the ramp and moves a step; any other value message changes nothing |
| `Pwm.ValueMessageExactly` | clank/SAM/libs/PwmPin.c:91-120 | A value message is accepted if and only if its words begin with `val` and `ramp` and are followed by numbers, the first not negative; it then sets point and ramp and moves a step |
| `Pwm.WordExactly` | clank/SAM/libs/PwmPin.c:122-131 | A word that begins with `enable` enables the pin, `disable` disables it, another changes nothing |
| `Pwm.DaemonPin.Set` | clank/SAM/libs/PwmPin.c:133-173 | The duty moves one step |
| `Pwm.MovesTowards` | clank/SAM/libs/PwmPin.c:133-173 | A step goes towards the set point and not beyond, by the ramp or by what is left, at once if the ramp is not positive |
| `Pwm.DistanceAfterSteps` | clank/SAM/libs/PwmPin.c:133-173 | After k steps the distance is the greater of 0 and the old one less k ramps |
| `Pwm.HostPin.constructor` | clank/lib/hardware/PwmPin.cpp:52-72 | The staged numbers are sent, and nothing is mirrored yet |
| `Pwm.HostPin.SetValue` | clank/lib/hardware/PwmPin.cpp:101-115 | A value in 0 to 100 is staged and sent, another refused |
| `Pwm.HostPin.SetRampSpeed` | clank/lib/hardware/PwmPin.cpp:82-94 | A speed other than 0 is staged and sent, 0 refused |
| `Pwm.HostPin.ParseMessage` | clank/lib/hardware/PwmPin.cpp:142-201 | The loop sets the mirrored numbers of the valid fields up to the first invalid one |
| `Pwm.ParsesLevels` | clank/lib/hardware/PwmPin.cpp:142-201 | The daemon's message sets both mirrored numbers |
| `Pwm.ParsesExactly` | clank/lib/hardware/PwmPin.cpp:142-201 | Which fields may come next: a value from 0 to 100, a ramp other than 0, a set point, the name, white space; at any other the message is invalid and the numbers before it are kept |
| `Pwm.CommandProcessed` | clank/lib/hardware/PwmPin.cpp:131-140 | The daemon accepts the host's message and takes its value and ramp |
| `Pwm.ReportParsed` | clank/SAM/libs/PwmPin.c:67-73 | Every report of a pin in range is valid for the host and sets its mirror |
| `Pwm.AfterInRange` | clank/SAM/libs/PwmPin.c:32-173 | An event keeps the ranges, and it keeps the mirror if and only if it is no report that is sent and does not fit |
| `Pwm.MirrorsExactly` | clank/SAM/libs/PwmPin.c:59-86 | After any run from any state the host has what the daemon last reported if and only if the last report sent fitted, or none was sent and it was so before, or the lost one happens to repeat the levels that the host has |
| `Pwm.RunFromStart` | clank/SAM/libs/PwmPin.c:5-173 | The same from a fresh pin, whose duty stays in 0 to 100 in every run; in particular it is mirrored if every message fits |
| `Pwm.DistanceAfterRounds` | clank/SAM/libs/PwmPin.c:32-173 | After the host sets a value, n reports later the duty has moved n+1 steps towards it and not beyond, and what was mirrored still is |
| `Pwm.Settles` | clank/lib/hardware/PwmPin.cpp:122-129 | From the distance divided by the ramp, rounded up, plus 2 reports on, the daemon has nothing to report, and `IsConsistant` holds unless an earlier report was lost |
| `Pwm.StepsNeededLeast` | clank/SAM/libs/PwmPin.c:133-173 | No fewer steps than that quotient cover the distance |
| `Pwm.ConsistentExactly` | clank/lib/hardware/PwmPin.cpp:122-129 | When a set pin has settled, after reports that fit or not in any order, and whether or not earlier ones were lost, `IsConsistant` holds if and only if the last report sent fitted, or none fitted and it held before |
| `Pwm.LostYetConsistent` | clank/lib/hardware/PwmPin.cpp:122-129 | Two lost reports can leave the host consistent, with the value from before |
| `Pwm.LostUntilSent` | clank/SAM/libs/PwmPin.c:59-86 | After a last report that did not fit, no further reports change anything, and in every run the host stays wrong until the daemon sends again; it is right when the last report sent since then fitted |
| `Pwm.ReportCanBeLost` | clank/SAM/libs/PwmPin.c:67-79 | A run from a fresh pin leads to such a report |
| `Watchdog.NextInv` | clank/lib/timers/Watchdog.cpp:8-152 | Every step of the thread, of a client or of time keeps what the thread and the clients hold and what the deadline means |
| `Watchdog.CallbackStarts` | clank/lib/timers/Watchdog.cpp:16-43 | In every run a callback starts only with the mutex held and the flag set, after a wait without a delivered signal up to a deadline with less than 10^9 nanoseconds that is the clock plus the timeout |
| `Watchdog.CallbacksInTurn` | clank/lib/timers/Watchdog.cpp:174-180 | In every run each timeout calls the callbacks one after the other, all of them before the thread goes on |
| `Watchdog.CallsAll` | clank/lib/timers/Watchdog.cpp:174-180 | From the first callback of a timeout a run leads to each further one and to the end |
| `Watchdog.WaitUsesLastStored` | clank/lib/timers/Watchdog.cpp:23-28 | In every run a wait uses the timeout of the last call of `SetTimeoutMillis` that had stored it when the thread read it, or that of the start |
| `Watchdog.SetTakesEffect` | clank/lib/timers/Watchdog.cpp:78-99 | A call of `SetTimeoutMillis` that nobody disturbs sets the timeout |
| `Watchdog.KickFailsExactly` | clank/lib/timers/Watchdog.cpp:16-43 | For the signal of a kick, in every state with the invariant: some continuation starts a callback before the timeout has passed since the signal, by more than the clock's microsecond, if and only if the flag is set, there are callbacks, the thread has read the clock and does not wait, and the clock has moved on since |
| `Watchdog.UnheededKickFails` | clank/lib/timers/Watchdog.cpp:16-43 | After the signal of a kick that the thread does not heed some continuation starts a callback at the deadline from the old reading, or at once |
| `Watchdog.HeededKickHolds` | clank/lib/timers/Watchdog.cpp:16-43 | After the signal of a kick that comes while the thread waits, or before it reads the clock, no continuation starts a callback before the timeout has passed since the signal, up to a microsecond |
| `Watchdog.KickCanBeLost` | clank/lib/timers/Watchdog.cpp:16-35 | From the start there is a run with a kick that fails, for every timeout and any callbacks |
| `Watchdog.NoCallbackAfterStop` | clank/lib/timers/Watchdog.cpp:138-152 | After `Stop` has released the mutex no callback starts |
| `WatchdogStop.StopHangsExactly` | clank/lib/timers/Watchdog.cpp:78-152 | Once `Stop` has cleared the flag, some continuation reaches a state from which it never returns if and only if the thread was between its test of the flag and its lock, or a client in setting or getting the timeout was while the thread still needs the mutex |
| `WatchdogStop.StopOfARunHangsExactly` | clank/lib/timers/Watchdog.cpp:78-152 | The same in every state that a run from the start reaches |
| `WatchdogStop.StuckForever` | clank/lib/timers/Watchdog.cpp:78-117 | Then the mutex is held by one who never unlocks it and the thread never ends |
| `WatchdogStop.StopReturns` | clank/lib/timers/Watchdog.cpp:138-152 | Otherwise a run completes the call from every later state |
| `WatchdogStop.StopWakes` | clank/lib/timers/Watchdog.cpp:138-152 | If the thread waits, the call and the thread alone come to its return before any time passes |
| `WatchdogStop.StopCanHangInWait` | clank/lib/timers/Watchdog.cpp:78-99 | A run from the start leads to such a client in `SetTimeoutMillis`, while the thread waits |
| `WatchdogStop.StopCanHangInGet` | clank/lib/timers/Watchdog.cpp:101-117 | The same with a client in `GetTimeoutMillis` |
| `WatchdogStop.BeforeClearCanHang` | clank/lib/timers/Watchdog.cpp:78-152 | Before the flag is cleared an idle client can still come between |
| `WatchdogStop.StopCanHang` | clank/lib/timers/Watchdog.cpp:101-152 | A run from the start leads to the thread between its test of the flag and its lock |

## Left out

- Sockets, serial ports, `select`, opening and closing files, and creating threads: a file is its text, and what a port answers is a parameter.
- Integer overflow in C and C++ where the sources do not rely on it: prime candidates, test numbers, coordinates and timeouts are unbounded; the generator of random numbers and the check register have their width.
- Rounding and formatting of floating point numbers: duties and velocities are exact reals, map coordinates are integers, and a speed that does not fit a byte is reduced modulo 256.
- Null pointers given to the regular expressions and the transcoder, and the texts of failure messages.
- IndentedFile.IndentedFileConfigurationReader.ReadFromFile: does not model a file whose last line has no newline, after which the lookahead keeps that line.
- The destructors of configurations, and with them the lifetime of the children that a copy shares.
- SparseMap.DeserializePoint: takes the number that a blank first token leaves uninitialised as a parameter.
- Command.Command.Parse: does not model text of 256 characters or more, which overruns the buffer.
- Pwm.DaemonPin.Report: takes the length of a message as a parameter, and a message as the sequence of its fields.
- Pwm.DaemonPin.Process: does not model a value message with missing fields, for which the source reads through a null pointer.
- PumpParser.ParseToAST: starts from the tokens; the tokenizer is a table of regular expressions, and positions only appear in messages.
- PumpInterp.RunAtomicCode: takes Python's evaluation of an expression as any function of the visible bindings.
- Checking out a PWM pin a second time: the new host object does not know what was reported to the old one, so the mirror is stated from a fresh pin.
- The watchdog's callbacks that call the watchdog, callbacks added while its thread runs, timeouts beyond an `int`, a negative timeout in its configuration, and destroying the mutex after the join.
- Starting the watchdog again, and a second call of `Stop`, as by the destructor: it returns at the clear flag when the first has returned, and two at the same time would join the thread twice.
- Visualising a map and removing obstacles, the bounds of a map, and the validity test of a command: each is a plain loop or expression.
- Test properties, results, environments and type parameters of test cases, and reading the shard from the environment.
- Comments and line breaking in the output of Pump.
- The peripheral manager's checkout handshake, the differential drive, obstacle planes and path planners: they rest on timing, on trigonometry or are stubs.
- Death tests, stream capture, printers and the rest of Google Test: platform plumbing.
