# ShieldWall, verified model

ShieldWall is a web application firewall. This project models its exact cores in Dafny 4.11 and
proves what they compute: the signature engine (Aho-Corasick automaton, rule lexer, condition
parser, compiled matcher), the TLS ClientHello decoder with the JA3 and JA4 fingerprints, the
stateful guards (rate limiter, connection tracker, brute-force guard, penalty box, address
whitelist), the built-in JSON parser, the detector of repeated JSON keys, and the streaming mean and
variance. `dafny verify dfyconfig.toml` checks everything.

Code that changes objects is a class whose methods are proved against specification functions; the
lemmas are about those functions. One module holds one component, and further modules beside
it what is proved over texts or whole runs. `Strings`, `Sequences`, `Numerals`, `Bytes`, `Int64` and
`Wrappers` hold shared definitions.

What lies outside the code is a parameter: regular-expression matching, hashes, number and address
conversion, the square root, the JSON library's parser, what converting an out-of-range double
yields, and every clock reading. `real` stands for `double` without rounding.

## Results about the code

Where the code does not do what its comments or its sibling in the other language suggest, the code
is modelled as it is, and the exact condition is proved.

- The C++ prefilter of the matcher loses accepted rules. For a rule of one leaf `OneLeafExact` says
  exactly which: keywords that contain upper case without `nocase`, keywords aimed at a field outside
  the scanned text, and targets that can hold text while the rule's group is skipped, such as cookies
  when there are no headers (`CookieRuleMissed`). A negated leaf that does not match is
  lost whenever the rule's group is skipped or its keyword is absent (`NegationExact`), so such a rule
  is safe only if it has no keyword and its group is never skipped, or if its pattern matches anyway
  (`NegatedLeafExact`). `ExactUnlessMissed` says when this happens for any rules; `SafeRulesExact`
  gives a condition on the rules alone under which it never does. The JavaScript form tests a type
  name its parser never produces (src/core/rule-matcher.js:200), so its keyword prefilter does nothing for
  parsed rules.
- Rules on session, location, fingerprint and rate data never match, although the documentation lists
  these targets (README.md:153-157 of the repository), and the URL before decoding is the same text as the decoded one
  (`NameReached`).
- `any` and `all` before a keyword make two identifiers, so the keyword is lost (`PairRead`).
- The decoder keeps one body for each extension type, so a repeated type loses its earlier bodies and
  the hello can no longer be written out as it came (`ReserializedPrefix`, `EarlierBodyLost`).
- The limiter reads its clock before it takes the lock. The sliding window shrinks by the largest
  such lag, and by exactly that much (`WindowGuarantee`, `WindowTight`). A store that reaches its
  capacity of keys evicts one, and its window is gone with it: whatever the capacity, the window is
  guaranteed if and only if there are fewer keys (`GuaranteedExactly`, `FullStoreForgets`).
- The GREASE counter of the supported groups also counts groups that a repeated extension replaced
  (`GroupCounterExact`).
- `hasDuplicateKeys` reports an array of objects with distinct keys (`ArrayMisreported`); on objects
  it is exact (`Verdict`).
- Whitelisting an IPv6 block does nothing for IPv4 addresses carried in IPv6, because lookups turn
  those into IPv4 first (`MappedExceptionExact`); and adding an address reaches the exact list only
  if its text holds a NUL and then a slash with no prefix length behind it, because every other
  address also parses as a block (`ExactListExactly`, `ReachesExactList`).
- Dropping an idle connection entry forgives any debt beyond what the refill would have covered
  (`DropHarmlessExactly`).
- Progressive blocking converts an unbounded double to 64 bits before it applies the cap, so a
  deadline can move back (`LengthExactly`, `NeverMovesBackExactly`, `BackoffMovesBack`).
- The penalty box cuts each ban to whole milliseconds before it multiplies again, and converts before
  it caps: `ClosedExactly` says for which options bans follow the closed form, `StallExactly` when
  they never grow, `NeverBackExactly` when a violation cannot bring the end of a ban forward.

## Model

| member | source | states |
|---|---|---|
| `AhoCorasick.AhoCorasick.Add` | src/core/AhoCorasick.cpp:11-29 | adding a non-empty keyword before compilation extends the dictionary by exactly that pair and keeps the trie; an empty keyword or a compiled automaton changes nothing |
| `AhoCorasick.AhoCorasick.Build` | src/core/AhoCorasick.cpp:31-70 | after building in either form, every node's failure link is the longest proper suffix that is a trie path and its outputs are exactly those of all keywords ending there |
| `AhoCorasick.AhoCorasick.LinkRootChildren` | src/core/AhoCorasick.cpp:36-40 | children of the root fail to the root; the queue starts with exactly them, in order of depth |
| `AhoCorasick.AhoCorasick.LinkChildren` | src/core/AhoCorasick.cpp:42-68 | processing one queue entry links all its children and keeps the queue in breadth-first order |
| `AhoCorasick.AhoCorasick.FailAndOutputs` | src/core/AhoCorasick.cpp:49-66 | the link found for a child, by the C++ walk or by the one over null links, is the longest suffix of its path; its outputs become its own and those of the link |
| `AhoCorasick.AhoCorasick.Follow` | src/core/AhoCorasick.cpp:80-88 | walking failure links until a character can be read ends at the longest suffix of the extended text, and the hops are paid for by depth |
| `AhoCorasick.AhoCorasick.Search` | src/core/AhoCorasick.cpp:71-96 | a search returns exactly the outputs of non-empty keywords that occur in the text, each once, with at most as many failure hops as characters |
| `AhoCorasick.AhoCorasick.FollowToNull` | src/core/aho-corasick.js:92-95 | the walk with a null link above the root ends at the same node, with one hop more at most |
| `AhoCorasick.AhoCorasick.Scan` | src/core/aho-corasick.js:87-102 | the JavaScript scan finds the same outputs with at most twice as many hops as characters |
| `AhoCorasick.AhoCorasick.SearchLazily` | src/core/aho-corasick.js:83-103 | the JavaScript search builds on first use, with links found by its own walk over null links, and then finds exactly the outputs of occurring keywords |
| `AhoCorasick.CandidateHop` | src/core/AhoCorasick.cpp:80-82 | one failure hop skips no suffix that could be extended by the next character |
| `AhoCorasick.CandidateFound` | src/core/AhoCorasick.cpp:83-85 | the first candidate with the wanted edge is the longest suffix of the longer text |
| `AhoCorasick.CandidateExhausted` | src/core/AhoCorasick.cpp:86-88 | if even the root lacks the edge, only the empty path is left |
| `AhoCorasick.LongestEndsSame` | src/core/AhoCorasick.cpp:90-92 | the keywords ending a text are the keywords ending its longest suffix in the trie |
| `AhoCorasick.MergedOutputs` | src/core/AhoCorasick.cpp:61-66 | own outputs together with those of the failure target are all outputs of a node |
| `AhoCorasick.ShallowSeen` | src/core/AhoCorasick.cpp:42-47 | breadth-first order: when a node is processed, every shallower node has its final link and outputs |
| `AhoCorasick.ProgressStep` | src/core/AhoCorasick.cpp:46-67 | linking one child keeps what was established for every node linked before |
| `AhoCorasick.TrieGrows` | src/core/AhoCorasick.cpp:18-27 | adding a node keeps paths, edges and node numbers in one-to-one correspondence |
| `AhoCorasick.HitAtSomePrefix` | src/core/AhoCorasick.cpp:79-93 | a keyword occurs in a text exactly when it ends one of its prefixes |
| `ClientHello.GreaseValues` | gateway/parser.go:52-54 | the bit test holds exactly for the sixteen reserved values of section 2 of RFC 8701 |
| `ClientHello.ParseClientHello` | gateway/parser.go:114-254 | header checks, then the fields: exactly the result of the specification, including which error is returned |
| `ClientHello.ParseFields` | gateway/parser.go:133-254 | fixed fields and extensions decode as specified for every input, with every index in range |
| `ClientHello.ReadFixed` | gateway/parser.go:134-194 | version, random, session id, ciphers and compression, with the error of the first field that does not fit |
| `ClientHello.ReadCiphers` | gateway/parser.go:172-178 | all two-byte cipher suites in order, and the number of GREASE values among them |
| `ClientHello.ReadCompression` | gateway/parser.go:190-193 | the compression methods are the bytes behind their length |
| `ClientHello.AddExtensions` | gateway/parser.go:207-251 | the loop absorbs exactly the whole extensions in the block, in order, and drops a malformed tail |
| `ClientHello.AddExtension` | gateway/parser.go:218-250 | one extension is recorded, counted if GREASE, and its known content taken over |
| `ClientHello.ParseKnown` | gateway/parser.go:226-250 | the switch over the nine known types changes the fields of that type only |
| `ClientHello.CountGreaseIn` | gateway/parser.go:233-237 | GREASE values among the supported groups are counted |
| `ClientHello.ParseSni` | gateway/parser.go:258-268 | the host name behind the fixed offsets, or empty when it does not fit |
| `ClientHello.ParseUint16List` | gateway/parser.go:270-284 | a length-prefixed list of two-byte values, or nothing when the length is wrong |
| `ClientHello.ParseUint8List` | gateway/parser.go:286-298 | a length-prefixed list of bytes, or nothing when it does not fit |
| `ClientHello.ParseAlpn` | gateway/parser.go:300-324 | the protocol names, one after the other, up to the first that does not fit |
| `ClientHello.ParseSupportedVersions` | gateway/parser.go:326-341 | the offered versions behind a one-byte length |
| `ClientHelloWire.FixedExactly` | gateway/parser.go:136-194 | the fixed part decodes to given fields and length if and only if their RFC 8446 encoding stands at the front |
| `ClientHelloWire.FramesFill` | gateway/parser.go:207-251 | for arbitrary bytes, what was read fills the block up to where no whole extension follows |
| `ClientHelloWire.FillingUnique` | gateway/parser.go:207-251 | no other list of extensions fills the block that way |
| `ClientHelloWire.HandshakeHeader` | gateway/parser.go:118-133 | a handshake message with anything behind it decodes as its body |
| `ClientHelloWire.AbsorbsBody` | gateway/parser.go:225-250 | absorbing the RFC encoding of an extension makes the fields carry its content |
| `ClientHelloWire.AbsorbKeeps` | gateway/parser.go:226-250 | an extension leaves the fields of every other type alone |
| `ClientHelloWire.AbsorbedSummary` | gateway/parser.go:218-250 | for any extensions: ids in order, exact GREASE counts, empty fields for absent types |
| `ClientHelloWire.AbsorbedBodies` | gateway/parser.go:218-219 | the map of bodies holds exactly the ids, each with the body of its last occurrence |
| `ClientHelloWire.GroupCounterExact` | gateway/parser.go:231-237 | the GREASE counter of the groups counts the groups that are kept if and only if no earlier occurrence of that extension held GREASE |
| `ClientHelloWire.RoundTrip` | gateway/parser.go:114-254 | decoding the RFC encoding of any well-formed hello with distinct extension types returns its fields, every extension's content and the true GREASE counts |
| `ClientHelloWire.AcceptedShape` | gateway/parser.go:114-254 | whatever is accepted has a well-formed fixed part standing in the input and extensions that fill its block |
| `ClientHelloWire.ReserializedPrefix` | gateway/parser.go:114-254 | for every accepted input, writing out the decoded hello from its own fields gives a prefix of the input if and only if nothing was dropped, no extension type came with two different bodies, and there is no empty extension block |
| `ClientHelloWire.StoredExactly` | gateway/parser.go:218-219 | the frames rebuilt from ids and bodies are the frames that were read if and only if no type came with two different bodies |
| `ClientHelloWire.BlockExactly` | gateway/parser.go:207-219 | an encoded list of frames is the rest of the data if and only if these are the frames read and nothing is dropped |
| `ClientHelloWire.DecodedAlike` | gateway/parser.go:114-254 | no serializer of the decoded value can start two inputs that are decoded alike and differ |
| `ClientHelloWire.EarlierBodyLost` | gateway/parser.go:218-219 | two hellos that differ only in the first body of a repeated extension type are decoded alike |
| `ClientHelloWire.FramesRecovered` | gateway/parser.go:218-219 | with distinct ids the extensions themselves can be read back from the decoded structure |
| `ClientHelloWire.ExactBody` | gateway/parser.go:128-133 | a message is a prefix of the payload exactly when its body is the declared one |
| `ClientHelloWire.MessageCut` | gateway/parser.go:115-131 | a message cut short anywhere is reported as too short for its header or for the length it announces |
| `ClientHelloWire.OtherMessage` | gateway/parser.go:119-123 | a message is reported as no ClientHello, with its type, if and only if its type is not 1 |
| `ClientHelloWire.FixedCut` | gateway/parser.go:137-192 | the fixed part cut short anywhere is reported by the field in which the cut lies |
| `RateLimiter.PopFront` | src/modules/RateLimiter.cpp:42 | the pop loop removes the expired timestamps up to the first live one |
| `RateLimiter.MemoryStore.Increment` | src/modules/RateLimiter.cpp:31-46 | below capacity exactly one timestamp is queued behind the live ones and the count is the new length; at capacity one key and one block may be lost first |
| `RateLimiter.MemoryStore.EvictOldest` | src/modules/RateLimiter.cpp:116-119 | at most one key and at most one block disappear, none only if there was none |
| `RateLimiter.MemoryStore.Block` | src/modules/RateLimiter.cpp:51-54 | the deadline of the key, and nothing else, changes |
| `RateLimiter.MemoryStore.IsBlocked` | src/modules/RateLimiter.cpp:60-71 | a live deadline is returned, an expired one erased, and no other key touched |
| `RateLimiter.MemoryStore.Unblock` | src/modules/RateLimiter.cpp:73-77 | timestamps and block of the key go |
| `RateLimiter.MemoryStore.Cleanup` | src/modules/RateLimiter.cpp:83-99 | every queue loses its expired front, empty queues and expired blocks go |
| `RateLimiter.MemoryStore.CleanRequests` | src/modules/RateLimiter.cpp:89-94 | every queue loses its expired front and empty queues go |
| `RateLimiter.MemoryStore.CleanBlocks` | src/modules/RateLimiter.cpp:95-98 | exactly the expired blocks go |
| `RateLimiter.Limiter.SkipsPath` | src/modules/RateLimiter.cpp:143-146 | a path is skipped exactly when one of the configured prefixes starts it |
| `RateLimiter.Limiter.CountRequest` | src/modules/RateLimiter.cpp:159-169 | the request is counted; above the maximum it is refused and a block begins, else the rest of the allowance is reported |
| `RateLimiter.Limiter.Check` | src/modules/RateLimiter.cpp:138-170 | with three separate clock readings: skipped, blocked, limited or admitted, with the exact counts and the exact new store |
| `RateLimiterRuns.StoreHoldsQueued` | src/modules/RateLimiter.cpp:31-46 | in every run the stored queue is the list of clock readings of the requests still queued |
| `RateLimiterRuns.StaysQueued` | src/modules/RateLimiter.cpp:40-43 | a request stays queued until a later reading passes it by a whole window |
| `RateLimiterRuns.WindowGuarantee` | src/modules/RateLimiter.cpp:31-46 | under every interleaving with fewer keys than the store may hold, whatever eviction would choose, at most `max` requests of a key are admitted at lock times within less than the window minus the lag |
| `RateLimiterRuns.WindowGuaranteeByReading` | src/modules/RateLimiter.cpp:138-170 | the same bound when the span is measured by the clock readings |
| `RateLimiterRuns.NoEviction` | src/modules/RateLimiter.cpp:37-38 | while a run has fewer keys than the store may hold, nothing is evicted and the store is that of a run without capacity |
| `RateLimiterRuns.FullStoreForgets` | src/modules/RateLimiter.cpp:37-46 | for every capacity: once as many other keys came first as leave room for one, and evictions the store can make take the key of the request before, every later request is admitted at one instant with a maximum of 1 |
| `RateLimiterRuns.GuaranteedExactly` | src/modules/RateLimiter.cpp:31-46 | for every window, lag, capacity and maximum: the window is guaranteed in all runs with a given number of keys if and only if that number is below the capacity |
| `RateLimiterRuns.WindowTight` | src/modules/RateLimiter.cpp:31-46 | for every window, lag and capacity above 1 there is a run that admits one more within exactly the window minus the lag, so the bound cannot be widened |
| `RateLimiterRuns.PopIsFilter` | src/modules/rate-limiter.js:61-65 | popping from the front equals the JavaScript filter if and only if no expired timestamp stands behind a live one |
| `RateLimiterRuns.DequeIsList` | src/modules/rate-limiter.js:92-98 | with a clock that never steps back, over every run and through cleanups, the store with deques holds what the form with filtered lists holds, and every queue is sorted |
| `ConditionParser.Parser.Advance` | src/core/RuleParser.cpp:262-265 | the current token is returned and the position moves unless at the end |
| `ConditionParser.Parser.ExpectToken` | src/core/RuleParser.cpp:267-273 | a token of the wanted kind is consumed, any other is the error |
| `ConditionParser.Parser.MatchToken` | src/core/RuleParser.cpp:275-278 | a token is consumed only if it has the wanted kind |
| `ConditionParser.Parser.ParseOrHere` | src/core/RuleParser.cpp:404-415 | the loop over `or` is the specification started at this position, on success and on error |
| `ConditionParser.Parser.ParseAndHere` | src/core/RuleParser.cpp:417-428 | the loop over `and`, likewise |
| `ConditionParser.Parser.ParseNotHere` | src/core/RuleParser.cpp:430-439 | `not` in front of one primary, likewise |
| `ConditionParser.Parser.ParsePrimaryHere` | src/core/RuleParser.cpp:441-516 | parentheses, sets and variables, likewise |
| `ConditionParser.Parser.ParseSetHere` | src/core/RuleParser.cpp:449-484 | `any of` and `all of` with `them` or a list of variables, likewise |
| `ConditionGrammar.OrParsed` | src/core/RuleParser.cpp:404-415 | a chain of alternatives is read to its meaning, whatever the loop then meets |
| `ConditionGrammar.PrimParsed` | src/core/RuleParser.cpp:441-516 | a primary of the grammar is read to its meaning |
| `ConditionGrammar.OrDerived` | src/core/RuleParser.cpp:404-415 | whatever the parser reads was derived by the grammar |
| `ConditionGrammar.PrimDerived` | src/core/RuleParser.cpp:441-516 | a primary the parser reads was derived by the grammar |
| `ConditionGrammar.AcceptsExactly` | src/core/RuleParser.cpp:404-516 | for every token list and position, the parser returns a condition and an end if and only if the grammar derives that range with that meaning and the token behind it cannot go on: no `or`, no `and`, and no `in` behind a bare variable |
| `ConditionGrammar.UniqueMeaning` | src/core/RuleParser.cpp:404-516 | a token range denotes at most one condition |
| `ConditionGrammar.PrintOr` | src/core/RuleParser.cpp:404-415 | every condition has a printed form in the grammar that denotes it |
| `ConditionGrammar.PrintedParsed` | src/core/RuleParser.cpp:404-516 | parsing the printed form of any condition returns it and consumes all of it |
| `Lexer.Lexer.Advance` | src/core/RuleParser.cpp:43-52 | one character is consumed and the line is that of the new position |
| `Lexer.Lexer.SkipWhitespace` | src/core/RuleParser.cpp:54-76 | blanks, line comments and block comments are skipped, an open block comment to the end |
| `Lexer.Lexer.SkipLineComment` | src/core/RuleParser.cpp:59-62 | a line comment ends before its newline |
| `Lexer.Lexer.SkipBlockComment` | src/core/RuleParser.cpp:63-71 | a block comment ends behind the first closing mark |
| `Lexer.Lexer.ReadString` | src/core/RuleParser.cpp:78-110 | string bodies with their escapes, or the unterminated-string error |
| `Lexer.Lexer.ReadRegex` | src/core/RuleParser.cpp:112-152 | a pattern up to the slash outside escapes and classes, and its flags |
| `Lexer.Lexer.ReadFlags` | src/core/RuleParser.cpp:138-141 | the run of flag letters |
| `Lexer.Lexer.ReadIdentifier` | src/core/RuleParser.cpp:154-160 | the run of identifier characters |
| `Lexer.Lexer.ReadNumber` | src/core/RuleParser.cpp:162-173 | the run of digits as a number token |
| `Lexer.Lexer.ReadTokens` | src/core/RuleParser.cpp:188-249 | one round of the token loop yields the specified tokens or error |
| `Lexer.Lexer.ReadWord` | src/core/RuleParser.cpp:219-241 | keywords, identifiers, and `any` or `all` with the word behind them |
| `Lexer.Lexer.Tokenize` | src/core/RuleParser.cpp:175-253 | the whole token list, or the error, is the specification's |
| `LexerText.GapSkipped` | src/core/RuleParser.cpp:54-76 | any run of blanks and well-formed comments is skipped as a whole |
| `LexerText.StringRead` | src/core/RuleParser.cpp:78-110 | reading a string undoes escaping it, for every string |
| `LexerText.QuotedRead` | src/core/RuleParser.cpp:78-106 | a string in either quotes is read to the values of its characters; six characters behind a backslash are replaced, any other keeps the backslash |
| `LexerText.QuotedWritten` | src/core/RuleParser.cpp:78-106 | and whatever is read as a string was written so |
| `LexerText.RegexRead` | src/core/RuleParser.cpp:112-152 | a pattern with no bare slash outside a class is read back |
| `LexerText.RegexReadOk` | src/core/RuleParser.cpp:112-152 | and only such patterns are ever read |
| `LexerText.KeywordRead` | src/core/RuleParser.cpp:178-185 | each keyword, spelled as a literal, has its kind |
| `LexerText.OtherWord` | src/core/RuleParser.cpp:178-185 | any other word is an identifier |
| `LexerText.MarkRead` | src/core/RuleParser.cpp:194-199 | each of the six marks, spelled as a literal, has its kind |
| `LexerText.PairRead` | src/core/RuleParser.cpp:221-232 | `any` or `all` and `of` make one token whatever blanks and comments stand between; before any other word, even a keyword, they make two identifiers |
| `LexerText.LineCounts` | src/core/RuleParser.cpp:43-52 | lines count from 1, one more for each line feed before the position |
| `LexerText.FaultExactly` | src/core/RuleParser.cpp:106-249 | which error a position gives: a string or regex that is never closed, or a character that starts nothing, each if and only if |
| `LexerText.GapLexed` | src/core/RuleParser.cpp:54-247 | no run of blanks, comments, commas, semicolons and square brackets yields a token |
| `LexerText.TokenRead` | src/core/RuleParser.cpp:188-249 | every representable token, fixed ones spelled as literals, is read back from its text before any character it does not take |
| `LexerText.RenderedLexed` | src/core/RuleParser.cpp:175-253 | tokenizing the rendering of any representable token list returns the tokens, each with its line, whatever blanks, comments and separators stand between them, and without any where a token does not run into the next |
| `ConditionText.SpelledCondition` | src/core/RuleParser.cpp:175-516 | from text to tree: a text that spells the printed form of a condition, with any blanks and comments, lexes and parses to that condition |
| `ConditionText.TextBack` | src/core/RuleParser.cpp:175-516 | the literal text of any condition over dollar variables, as rules are written, lexes and parses back to that condition |
| `RequestTexts.SafeStringify` | src/core/RuleMatcher.cpp:6-17 | every value behind its key and an equals sign, joined by ampersands, refused keys left out, in the order in which the map is walked |
| `RequestTexts.SafeStringifyValues` | src/core/RuleMatcher.cpp:19-28 | the same for a map of single values |
| `RequestTexts.PrepareMatchData` | src/core/RuleMatcher.cpp:30-61 | the texts of a request: its own fields, the flattened maps, the two header values with their second names, the clock reading in decimal |
| `RequestTexts.ValueOccurs` | src/core/RuleMatcher.cpp:12-14 | every value that is flattened stands in the text |
| `RequestTexts.FlatHasEquals` | src/core/RuleMatcher.cpp:12-14 | a flattened text is empty if and only if nothing was flattened, and else holds an equals sign |
| `RequestTexts.HeaderValueOccurs` | src/core/RuleMatcher.cpp:50-56 | the two header values stand in the flattened headers |
| `RequestTexts.SpreadOne` | src/core/RuleMatcher.cpp:8-15 | one entry gives its key with each value in order, but nothing for the three refused names |
| `RequestTexts.SpreadSplits` | src/core/RuleMatcher.cpp:10-15 | entries are flattened one after the other |
| `RequestTexts.FlattenedBack` | src/core/RuleMatcher.cpp:6-28 | flattened pairs are read back by cutting at ampersands and first equals signs, if no key holds either and no value an ampersand |
| `RequestTexts.InClockExactly` | src/core/RuleMatcher.cpp:46-48 | digits occur in some clock reading of 64 bits if and only if there are at most 18, or 19 that are such a reading themselves |
| `RuleMatcher.Categorize` | src/core/RuleMatcher.cpp:176-203 | the group of a rule by its targets, in the order the code tests them |
| `RuleMatcher.AddHooks` | src/core/RuleMatcher.cpp:205-214 | exactly the long literals of the rule enter the automaton under the rule's name |
| `RuleMatcher.CompileRules` | src/core/RuleMatcher.cpp:170-221 | the context holds the rules by group in order, the names with literals, and an automaton of exactly the keywords |
| `RuleMatcher.OneMoreRule` | src/core/RuleMatcher.cpp:174-218 | one more rule adds its own keywords and name and nothing else |
| `RuleMatcher.MatchedPatterns` | src/core/RuleMatcher.cpp:267-271 | the listed patterns are exactly those that match the whole request |
| `RuleMatcher.Describe` | src/core/RuleMatcher.cpp:249-272 | a report carries the rule's name, severity, category and description with their defaults |
| `RuleMatcher.HookHits` | src/core/RuleMatcher.cpp:236-240 | what the automaton finds are the rule names with a literal in the lower-cased request |
| `RuleMatcher.MatchCompiledRules` | src/core/RuleMatcher.cpp:223-275 | on the prepared texts of the request the matches describe, in order, the active rules that survive the prefilter and whose condition holds |
| `MatcherExactness.ReportedAccepts` | src/core/RuleMatcher.cpp:223-275 | the matcher never reports a rule that its condition rejects |
| `MatcherExactness.ReportedIsSurvivors` | src/core/RuleMatcher.cpp:223-275 | going through the groups reports each surviving rule once |
| `MatcherExactness.ExactUnlessMissed` | src/core/RuleMatcher.cpp:223-275 | reported and accepted rules are the same multiset if and only if no accepted rule is skipped by its group or dropped by the prefilter |
| `MatcherSyntax.OccursLower` | src/core/RuleMatcher.cpp:206-237 | lower-casing both sides keeps an occurrence |
| `MatcherSyntax.PartHit` | src/core/RuleMatcher.cpp:59 | a hit in a part of a prepared request, the two header values included, is a hit in the scanned text |
| `MatcherSyntax.ForcedHit` | src/core/RuleMatcher.cpp:113-168 | a condition that syntactically forces a usable literal cannot hold without a keyword hit |
| `MatcherSyntax.SilentFalse` | src/core/RuleMatcher.cpp:113-168 | a negation-free condition on targets that are empty when the group is skipped cannot hold then |
| `MatcherSyntax.SafeRulesExact` | src/core/RuleMatcher.cpp:170-275 | for rules that meet a condition on their syntax alone, the compiled matcher reports exactly the accepted rules of every prepared request |
| `MatcherMeaning.LiteralMeans` | src/core/RuleMatcher.cpp:62-65 | a literal matches a text if and only if some part of the text is the literal, up to the case of letters if it says so |
| `MatcherMeaning.ClausesMean` | src/core/RuleMatcher.cpp:113-168 | a condition of any shape is true, or false, if and only if one clause of its disjunctive normal form, taken from its syntax, holds literal by literal |
| `MatcherMeaning.SafeMatches` | src/core/RuleMatcher.cpp:223-275 | whatever is reported for safe rules describes, in some order, exactly the rules one of whose clauses holds on the request |
| `MatcherMeaning.ReportedSays` | src/core/RuleMatcher.cpp:223-275 | for any rules, one of the clauses of every reported rule holds |
| `MatcherMeaning.NameReached` | src/core/RuleMatcher.cpp:67-111 | a leaf on any name of the target table tests just that part of the request; for seven names there is never any text |
| `MatcherMeaning.HeaderReached` | src/core/RuleMatcher.cpp:50-56 | the two header values are the first under the small name, or under the other if the small one is missing |
| `MatcherMeaning.FullIsLines` | src/core/RuleMatcher.cpp:59 | the scanned text is url, query, body, headers and cookies, one below the other |
| `MatcherMeaning.GroupReached` | src/core/RuleMatcher.cpp:176-197 | rules are filed by the group their target names have in common, and with no group if these differ |
| `MatcherSyntax.HitMeans` | src/core/RuleMatcher.cpp:62-65 | if a pattern matches on a surface of a prepared request, that surface holds text and is one on which it can match |
| `MatcherSyntax.UsableHit` | src/core/RuleMatcher.cpp:62-65 | wherever a usable pattern matches, its keyword occurs in the lower-cased text |
| `MatcherSyntax.LeafLost` | src/core/RuleMatcher.cpp:174-244 | whenever the condition of the exactness result fails, there is a request whose texts, as the code prepares them, make the rule accepted and lost |
| `MatcherSyntax.OneLeafExact` | src/core/RuleMatcher.cpp:174-244 | for a rule of one leaf on one string, whatever its targets: the matcher is exact on all requests the code can prepare and for all engines if and only if the leaf can never match, or its string is no keyword or a usable one on a surface inside the scanned text, and that surface is empty whenever the group is skipped |
| `MatcherSyntax.CookieRuleMissed` | src/core/RuleMatcher.cpp:190-202 | a rule on cookies alone is filed with the header rules and lost on some request the code can prepare, for every compiled pattern |
| `MatcherSyntax.NegationExact` | src/core/RuleMatcher.cpp:227-244 | with one negated leaf, whatever its target: the matcher is exact on a request if and only if the leaf matches, or the rule is looked at and its keyword, if it has one, is in the scanned text |
| `MatcherSyntax.NegationLost` | src/core/RuleMatcher.cpp:174-244 | whenever the condition of the next row fails, there is a request the code can prepare on which the negated rule is accepted and lost |
| `MatcherSyntax.NegatedLeafExact` | src/core/RuleMatcher.cpp:174-244 | for a rule of one negated leaf, whatever its target: the matcher is exact on all requests the code can prepare and for all engines if and only if the string is no keyword and the group is never skipped, or the pattern matches anyway, by its syntax alone |
| `MiniJson.Parser.SkipSpace` | src/modules/DdosProtector.cpp:108-114 | white space is skipped |
| `MiniJson.Parser.ReadValue` | src/modules/DdosProtector.cpp:115-125 | the value at this position and the position behind it are the specification's, or both fail |
| `MiniJson.Parser.ReadObject` | src/modules/DdosProtector.cpp:126-149 | an object, likewise |
| `MiniJson.Parser.ReadMembers` | src/modules/DdosProtector.cpp:131-148 | the member loop, a later member replacing an earlier one of its key |
| `MiniJson.Parser.ReadMember` | src/modules/DdosProtector.cpp:132-141 | one key, colon and value |
| `MiniJson.Parser.ReadArray` | src/modules/DdosProtector.cpp:150-166 | an array, likewise |
| `MiniJson.Parser.ReadString` | src/modules/DdosProtector.cpp:167-199 | a string with its escapes; four characters after a u escape give a question mark |
| `MiniJson.Parser.ReadBool` | src/modules/DdosProtector.cpp:200-205 | the words for truth values, and nothing else |
| `MiniJson.Parser.ReadNull` | src/modules/DdosProtector.cpp:206-210 | the word for null, and nothing else |
| `MiniJson.Parser.ReadNumber` | src/modules/DdosProtector.cpp:211-227 | the longest run of number characters, as the library converts it |
| `MiniJson.ParseSource` | src/modules/DdosProtector.cpp:52-58 | a source parses if it is one value with white space around it; the cursor never leaves the source |
| `MiniJsonText.EscapeRead` | src/modules/DdosProtector.cpp:177-195 | each escape is replaced by the character that section 7 of RFC 8259 gives it, any other escaped character by itself |
| `MiniJsonText.SpaceIsBlank` | src/modules/DdosProtector.cpp:108-114 | white space is that of section 2 of RFC 8259 |
| `MiniJsonText.StrictNumberAccepted` | src/modules/DdosProtector.cpp:211-220 | every number of section 6 of RFC 8259 is taken as a whole |
| `MiniJsonText.StrictIsAccepted` | src/modules/DdosProtector.cpp:174-196 | every string character of section 7 of RFC 8259 is accepted |
| `MiniJsonText.StringRead` | src/modules/DdosProtector.cpp:167-199 | a written string is read to its characters |
| `MiniJsonText.WrittenString` | src/modules/DdosProtector.cpp:167-199 | whatever is read as a string was a sequence of accepted characters with that meaning |
| `MiniJsonText.TextRead` | src/modules/DdosProtector.cpp:115-125 | the text of any tree is read to its meaning, for every nesting |
| `MiniJsonText.ItemsRead` | src/modules/DdosProtector.cpp:150-166 | items in order, each after its separator |
| `MiniJsonText.MembersRead` | src/modules/DdosProtector.cpp:126-149 | members in order, the last of one key standing |
| `MiniJsonText.ValueWritten` | src/modules/DdosProtector.cpp:115-125 | whatever is read as a value is the text of a tree with that meaning |
| `MiniJsonText.PrintedParsed` | src/modules/DdosProtector.cpp:52-58 | parsing undoes printing: the text of any tree parses to its meaning, or fails exactly when the number conversion rejects one of its numbers |
| `MiniJsonText.AcceptsExactly` | src/modules/DdosProtector.cpp:52-58 | a source parses to a value if and only if it is the text of a tree that means the value, with white space around it |
| `MiniJsonPrint.PrintMeans` | src/modules/DdosProtector.cpp:52-58 | the tree printed for a value with integer numbers is strict JSON and means the value |
| `MiniJsonPrint.ValueBack` | src/modules/DdosProtector.cpp:52-58 | parse after print, with the short escapes of the standard, is the identity: every value whose numbers are integers of at most 15 digits comes back from its text |
| `DuplicateKeys.HasDuplicateKeys` | src/core/decoder.js:79-105 | the scanner's loop over depth, string and escape state, compared with the number of own keys |
| `DuplicateKeys.CountsOuterMembers` | src/core/decoder.js:84-100 | on every JSON text the counter ends at the number of members of the objects that are inside no other object |
| `DuplicateKeys.MembersRun` | src/core/decoder.js:88-100 | a member adds its own colon at depth 1 and nothing else, whatever strings, escapes and nesting it holds |
| `DuplicateKeys.FewerKeysWhenRepeated` | src/core/decoder.js:82-83 | there are fewer distinct keys than members if and only if two keys are equal after decoding |
| `DuplicateKeys.Verdict` | src/core/decoder.js:79-105 | an object is reported if and only if two of its keys are equal after decoding; an array if and only if its outermost objects have more members than it has items; nothing else is reported |
| `DuplicateKeys.ArrayMisreported` | src/core/decoder.js:79-105 | an array of one object with two different keys is reported |
| `ConnTracker.Tracker.TouchLru` | src/modules/DdosProtector.cpp:523-525 | the key moves to the end of the list |
| `ConnTracker.Tracker.EvictOldest` | src/modules/DdosProtector.cpp:535-540 | the first key of the list leaves list and map |
| `ConnTracker.Tracker.Admit` | src/modules/DdosProtector.cpp:806-822 | the entry is found and marked used, or inserted full after room was made |
| `ConnTracker.Tracker.CheckConnFlood` | src/modules/DdosProtector.cpp:788-843 | one request refills up to the limit, takes one token and is flagged exactly when the bucket is overdrawn; list and map stay in agreement within the bound |
| `ConnTracker.Tracker.CollectExpired` | src/modules/DdosProtector.cpp:1039-1054 | a chunk of expired keys, all of them if fewer than the chunk, each once |
| `ConnTracker.Tracker.DeleteCollected` | src/modules/DdosProtector.cpp:1055-1065 | exactly the collected keys leave list and map, whatever happened to them meanwhile |
| `ConnTracker.CheckedAgrees` | src/modules/DdosProtector.cpp:803-832 | a request keeps list and map in agreement and the size within the bound |
| `ConnTracker.DroppedAllAgrees` | src/modules/DdosProtector.cpp:1055-1065 | a sweep keeps list and map in agreement |
| `ConnTrackerRuns.ReachableAgrees` | src/modules/DdosProtector.cpp:523-554 | in every reachable state list and map hold the same keys without repetition, and the size is at most the maximum, if that is at least 1 |
| `ConnTrackerRuns.ReachableAscends` | src/modules/DdosProtector.cpp:803-832 | with a clock that never steps back the list is sorted by last refill in every reachable state |
| `ConnTrackerRuns.RefilledAtLastRequest` | src/modules/DdosProtector.cpp:826-833 | an entry's last refill is the time of its last request |
| `ConnTrackerRuns.EvictionTakesLeastRecent` | src/modules/DdosProtector.cpp:535-540 | the key an eviction takes made its last request no later than any other key tracked |
| `ConnTrackerRuns.OthersKeep` | src/modules/DdosProtector.cpp:803-843 | a step that is not a request of an address changes nothing about it, unless it drops it |
| `ConnTrackerRuns.RunServes` | src/modules/DdosProtector.cpp:803-843 | while an address is kept, its entry is a function of its own requests alone |
| `ConnTrackerRuns.KeptWhenAllFit` | src/modules/DdosProtector.cpp:808-811 | as long as all addresses fit, none is evicted |
| `ConnTrackerRuns.RequestsWithinBudget` | src/modules/DdosProtector.cpp:824-843 | in any run that keeps an address, its requests in a span that ends unflagged number at most the limit plus the refill of the span, whatever the clock does inside the span |
| `ConnTrackerRuns.NeverAboveLimit` | src/modules/DdosProtector.cpp:824-837 | after a request a bucket holds at most the limit less one |
| `ConnTrackerRuns.DropHarmlessExactly` | src/modules/DdosProtector.cpp:1044-1065 | dropping an idle entry changes no verdict on later requests if and only if its bucket would be full by then, or nothing is ever allowed |
| `Fingerprint.FilterGrease16` | gateway/fingerprint.go:205-213 | the loop keeps exactly the other values, in order |
| `Fingerprint.FilterCounts` | gateway/fingerprint.go:205-213 | no GREASE value survives, and every other value survives as often as it was there |
| `Fingerprint.NoGreaseSurvives` | gateway/fingerprint.go:205-213 | what survives are exactly the other values |
| `Ja3.Uint16ToStrings` | gateway/fingerprint.go:215-221 | decimal texts of the values, in order |
| `Ja3.Uint8ToStrings` | gateway/fingerprint.go:231-237 | decimal texts of the bytes, in order |
| `Ja3.ComputeJa3` | gateway/fingerprint.go:54-73 | five comma-separated fields of dash-separated decimals without GREASE, and their hash |
| `Ja3.RoundTrip` | src/modules/fingerprinter.js:53-61 | reading the written text gives the version and the four lists in order, empty lists included, and null exactly when the text is longer than 1000 characters |
| `Ja3.SameTextExactly` | gateway/fingerprint.go:54-73 | two hellos have one JA3 text if and only if version and the four filtered lists agree |
| `Ja4.SortSlice` | gateway/fingerprint.go:115 | the library sort as assumed: in place, ascending, every value as often as before; whatever does that yields the one sorted list |
| `Ja4.SortedSame` | gateway/fingerprint.go:112-127 | two lists sort to one if and only if they hold the same values equally often |
| `Ja4.ResolveVersion` | gateway/fingerprint.go:244-258 | the highest offered version that is no GREASE, else the handshake version |
| `Ja4.HighestSame` | gateway/fingerprint.go:246-252 | order, repetition and GREASE do not matter to the highest version |
| `Ja4.IsIpAddress` | gateway/fingerprint.go:275-282 | only digits, hexadecimal letters, dots and colons |
| `Ja4.Uint16ToHexStrings` | gateway/fingerprint.go:223-229 | four-digit hexadecimal texts, in order |
| `Ja4.SortedHexList` | gateway/fingerprint.go:112-116 | the joined hexadecimal texts of the sorted values |
| `Ja4.ComputeJa4` | gateway/fingerprint.go:81-134 | the three sections with the hash as a parameter |
| `Ja4Text.TextRead` | gateway/fingerprint.go:81-134 | what the fingerprint of any hello says: version, name mark, both counts and protocol are read off its first section, and the hashed lists read back to the ascending values without GREASE |
| `Ja4Text.VersionExactly` | gateway/fingerprint.go:244-258 | the version shown is the highest offered that is no GREASE, or the handshake version if none is |
| `Ja4Text.VersionRead` | gateway/fingerprint.go:260-273 | a version reads 13, 12, 11 or 10 if and only if it is TLS 1.3, 1.2, 1.1 or 1.0, and else as its number in hexadecimal |
| `Ja4Text.DomainExactly` | gateway/fingerprint.go:275-282 | the name is marked as a domain if and only if it holds a byte that is in no address |
| `Ja4Text.CountRead` | gateway/fingerprint.go:95-96 | a count reads as the smaller of the number and 99 |
| `Ja4Text.Hex4Read` | gateway/fingerprint.go:223-229 | the four hexadecimal digits of a value read back to it |
| `Ja4Text.ListRead` | gateway/fingerprint.go:112-130 | a list reads back to exactly the values without GREASE, ascending |
| `Ja4.SameIdentitySameText` | gateway/fingerprint.go:81-134 | the fingerprint depends on version, name mark, protocol mark and the three multisets only |
| `Ja4.SameTextExactly` | gateway/fingerprint.go:81-134 | where the hash does not collide, two hellos have one fingerprint if and only if these agree |
| `Ja4.ReorderingShuffles` | gateway/fingerprint.go:112-127 | a reordered list is a shuffled list |
| `Ja4.InsertingGreaseShuffles` | gateway/fingerprint.go:205-213 | a GREASE value put anywhere makes a shuffled list |
| `Ja4.Invariant` | gateway/fingerprint.go:81-134 | reordering ciphers, extensions or signature algorithms, and GREASE anywhere in them or in the supported versions, leaves the fingerprint unchanged |
| `Ewma.EwmaTracker.Update` | src/core/WafTypes.hpp:82-93 | after any updates the fields are the closed forms over all samples |
| `Ewma.EwmaTracker.GetZScore` | src/core/WafTypes.hpp:118-123 | zero below 50 samples or without variance, else the signed distance in standard deviations |
| `Ewma.AverageSnoc` | src/core/WafTypes.hpp:89-91 | every weighted average moves towards the newest value by the factor alpha |
| `Ewma.WeightsSumToOne` | src/modules/anomaly.js:386-396 | the exponential weights sum to 1 |
| `Ewma.VarianceBySquares` | src/core/WafTypes.hpp:91 | the variance is the average square less the square of the average |
| `Ewma.Updated` | src/core/WafTypes.hpp:82-93 | one update of the closed forms: mean as weighted sum, variance as weighted sum of squared distances to the present mean |
| `Ewma.VarianceBound` | src/core/WafTypes.hpp:82-93 | for samples in an interval the mean stays inside it and the variance is at most the product of its distances to the ends |
| `BitPrefix.AndBits` | src/modules/DdosProtector.cpp:316-319 | each bit of a conjunction is the product of the bits |
| `BitPrefix.MaskBits` | src/modules/DdosProtector.cpp:316 | a mask has ones exactly at the kept places |
| `BitPrefix.MaskedSame` | src/modules/DdosProtector.cpp:315-338 | masking is canonical: two addresses mask to one if and only if their first bits agree |
| `BitPrefix.WordMasked` | src/modules/DdosProtector.cpp:315-320 | masking the 32-bit word clears the host bits of the four bytes |
| `Cidr.Mask4Is` | src/modules/DdosProtector.cpp:316 | the mask expression of the code is the mask with that many leading ones, prefix 0 included |
| `Cidr.Mask8Is` | src/modules/DdosProtector.cpp:336 | the shifted byte cut to eight bits is the mask of the partial byte |
| `Cidr.InCidr4` | src/modules/DdosProtector.cpp:345-353 | the word comparison means that the first prefix bits agree |
| `Cidr.InCidr6` | src/modules/DdosProtector.cpp:354-371 | the byte loop means that the first prefix bits agree |
| `Cidr.IpInCidr` | src/modules/DdosProtector.cpp:344-373 | membership by text, false when the text is not of the block's family |
| `Cidr.ParsePrefix` | src/modules/DdosProtector.cpp:301-306 | digits alone, read as a number |
| `Cidr.MaskHost4` | src/modules/DdosProtector.cpp:315-320 | the stored IPv4 network has its host bits cleared |
| `Cidr.MaskHost6` | src/modules/DdosProtector.cpp:331-338 | the stored IPv6 network has its host bits cleared |
| `Cidr.ParseCidrText` | src/modules/DdosProtector.cpp:276-342 | address, block or nothing, as specified |
| `Cidr.ParsedBlock` | src/modules/DdosProtector.cpp:276-342 | the addresses of a parsed block are exactly those that share its prefix with the address in the text |
| `Cidr.BareAddress` | src/modules/DdosProtector.cpp:278-297 | an address without a slash is the block of just this address, in both families; any other such text is none |
| `Cidr.AddressWithLength` | src/modules/DdosProtector.cpp:299-341 | an address, a slash and a decimal number are the addresses of that family that share so many first bits; too large a number is none |
| `Cidr.NoLength` | src/modules/DdosProtector.cpp:301-307 | anything but digits behind the first slash is none |
| `Cidr.StoredCanonically` | src/modules/DdosProtector.cpp:315-338 | two parsed blocks of one family and prefix are stored alike if and only if they hold the same addresses |
| `Whitelist.NormalizeIp` | src/modules/DdosProtector.cpp:250-274 | an IPv4 address carried in IPv6 is named as IPv4, other IPv6 in the library's form |
| `Whitelist.LookedUp` | src/modules/DdosProtector.cpp:426-435 | looking up the normal form is looking up the address |
| `Whitelist.Whitelist.AddToWhitelist` | src/modules/DdosProtector.cpp:387-407 | a block is listed unless it already was; a text that is an address but no block is listed in normal form |
| `Whitelist.Whitelist.RemoveFromWhitelist` | src/modules/DdosProtector.cpp:409-424 | the block, or the normal form, leaves the lists |
| `Whitelist.Whitelist.IsWhitelisted` | src/modules/DdosProtector.cpp:426-435 | true exactly for address texts that are listed or lie in a listed block |
| `Whitelist.EveryAddressIsABlock` | src/modules/DdosProtector.cpp:277-297 | every address text without a NUL character parses as a block, so adding it never fills the exact list |
| `Whitelist.ExactListExactly` | src/modules/DdosProtector.cpp:277-342 | an address text parses as no block if and only if it holds a slash, which then stands behind a NUL, and behind that no digits or a number above the limit of its family |
| `Whitelist.ReachesExactList` | src/modules/DdosProtector.cpp:387-407 | adding a text puts it on the exact list if and only if it is such an address text, whatever is listed |
| `Whitelist.AddMeans` | src/modules/DdosProtector.cpp:387-407 | adding a text admits, beyond those admitted before, exactly the addresses of the block it names, or the one address it is if it is no block |
| `Whitelist.AddressAdded` | src/modules/DdosProtector.cpp:387-435 | whitelisting one address lets through that address and nothing else |
| `Whitelist.LengthAdded` | src/modules/DdosProtector.cpp:387-435 | whitelisting an address with a prefix length lets through exactly the addresses that share so many first bits |
| `Whitelist.RemoveMeans` | src/modules/DdosProtector.cpp:409-424 | removing a block leaves exactly what some other entry admits |
| `Whitelist.RemoveUndoesAdd` | src/modules/DdosProtector.cpp:387-424 | adding a new block and removing it restores the lists |
| `Whitelist.MappedExceptionExact` | src/modules/DdosProtector.cpp:426-435 | of the IPv6 addresses in a block, those that carry an IPv4 address are exactly the ones it does not admit |
| `Whitelist.CarriedIsIpv4` | src/modules/DdosProtector.cpp:250-274 | `::ffff:a.b.c.d`, by its sixteen bytes, is let through if and only if `a.b.c.d` is |
| `Whitelist.OtherIpv6` | src/modules/DdosProtector.cpp:250-274 | any other IPv6 address counts as itself |
| `Whitelist.AddedBlockAdmits` | src/modules/DdosProtector.cpp:387-435 | after adding, every address text that shares the prefix is admitted, except that an IPv6 block does nothing for IPv4 carried in IPv6 |
| `BruteForce.DropOld` | src/modules/BruteForceGuard.cpp:138-142 | the attempts still in the window, in order |
| `BruteForce.Guard.EvictOldest` | src/modules/BruteForceGuard.cpp:194-197 | some entry goes if there is one |
| `BruteForce.Guard.RecordResponse` | src/modules/BruteForceGuard.cpp:105-155 | other paths change nothing, a success forgets the address, a failure updates its entry after room was made at capacity |
| `BruteForce.Guard.Reset` | src/modules/BruteForceGuard.cpp:158-161 | the address is forgotten |
| `BruteForce.Guard.Check` | src/modules/BruteForceGuard.cpp:51-73 | blocked with the remaining time exactly while the deadline is ahead |
| `BruteForce.WindowMoves` | src/modules/BruteForceGuard.cpp:138-143 | filtering at each failure is filtering once at the last |
| `BruteForce.EntryExact` | src/modules/BruteForceGuard.cpp:105-155 | with a clock that never steps back, an entry is the window, the number of blocks and the deadline computed from the failures since the last success |
| `BruteForce.WindowHolds` | src/modules/BruteForceGuard.cpp:138-143 | a window holds the last failure and exactly the earlier ones less than the window length before it |
| `BruteForce.BlockedForAReason` | src/modules/BruteForceGuard.cpp:138-154 | a blocked address failed at least the allowed number of times within one window since its last success |
| `BruteForce.LengthExactly` | src/modules/BruteForceGuard.cpp:146-153 | the n-th block lasts the smaller of base times 2 to the n-1 and the cap, whatever an out-of-range conversion yields, if and only if that product fits 64 bits |
| `BruteForce.Doubling` | src/modules/BruteForceGuard.cpp:147-150 | uncapped lengths begin with the base and double from block to block, or stay without backoff |
| `BruteForce.OneMore` | src/modules/BruteForceGuard.cpp:145-154 | the deadline before and after one more failure of any run: unchanged, or the failure plus the length of the next block |
| `BruteForce.NeverMovesBackExactly` | src/modules/BruteForceGuard.cpp:145-154 | after any run whose block lengths fit, a further failure never brings the deadline forward, whatever a conversion yields, if and only if it starts no block or its uncapped length fits 64 bits |
| `BruteForce.BackoffMovesBack` | src/modules/BruteForceGuard.cpp:145-154 | with the default options the 49th failure at one instant takes the deadline from a day ahead into the past, if the conversion yields the least integer |
| `PenaltyBox.Box.RecordViolation` | src/modules/DdosProtector.cpp:473-496 | a violation outside a ban is counted and, from the threshold on, begins a ban of the recurrence's length |
| `PenaltyBox.Box.UnbanIp` | src/modules/DdosProtector.cpp:460-471 | lifting a ban keeps the history |
| `PenaltyBox.BanLength` | src/modules/DdosProtector.cpp:487-495 | for all options, after any violations and liftings, the latest length is the recurrence at the number of bans so far |
| `PenaltyBox.Deadline` | src/modules/DdosProtector.cpp:460-495 | after any run: a violation outside a ban is counted and, from the threshold on, sets the deadline to its time plus the length of one more ban; during a ban it changes nothing, and lifting a ban changes the deadline only |
| `PenaltyBox.BannedIsQuiet` | src/modules/DdosProtector.cpp:479-483 | violations during a ban change nothing |
| `PenaltyLengths.BanIsIdeal` | src/modules/DdosProtector.cpp:487-495 | as long as the products fit 64 bits, the recurrence with conversions is the one over unbounded integers |
| `PenaltyLengths.ProductsFitExactly` | src/modules/DdosProtector.cpp:489-492 | every product of a run fits 64 bits if and only if lengths stall at the base or the cap times the multiplier fits |
| `PenaltyLengths.NeverBackExactly` | src/modules/DdosProtector.cpp:483-495 | no violation of any run ever brings the end of a ban forward, whatever a conversion yields, if and only if the products fit |
| `PenaltyLengths.MovesBack` | src/modules/DdosProtector.cpp:483-495 | for all options whose products do not fit there is a run and a conversion that bring it forward |
| `PenaltyLengths.StallExactly` | src/modules/DdosProtector.cpp:487-495 | in all runs all bans are alike if and only if the multiplier adds less than a millisecond to the base, or the base has reached the cap and the products fit |
| `PenaltyLengths.ClosedExactly` | src/modules/DdosProtector.cpp:487-495 | for every real multiplier from 1: in all runs the n-th ban is the smaller of base times multiplier to the n-1 and the cap, if and only if every such product below the cap is whole and the products fit |
| `PenaltyLengths.WholeMultiplier` | src/modules/DdosProtector.cpp:487-495 | a whole multiplier cuts nothing, so the closed form holds if and only if bans stall or the cap times the multiplier fits |
| `PenaltyLengths.FractionStalls` | src/modules/DdosProtector.cpp:487-495 | with multiplier 1.5 and a base of 1 ms the bans of every run are alike |

## Left out

- Servers, proxying, certificates, the dashboard, the command line, logging and report files: input, output and user interface.
- Regular-expression matching, the test for unsafe patterns, and stateful regex flags: foreign, taken as a parameter.
- Hashes, random values, Unicode normalization, URL and HTML decoding, and the conversions of the C library: foreign.
- Scoring heuristics, bot and session detectors, and Shannon entropy: tuned constants and floating point.
- ConditionText.TextBack: prints `any of` and `all of` with one blank; other blanks there are the subject of `LexerText.PairRead`.
- Rule files around conditions (sections `meta`, `target`, `strings`, tags) and the texts of error messages; the lexer's column counter, which nothing reads.
- RequestTexts.PrepareMatchData: the maps are lists in the order in which they are walked; the clock reads a time from 1970 on. The raw header list of a request is not looked at by the matcher and is absent.
- The JavaScript trie on linked node objects: its build and search are modelled over node numbers, with a null link above the root where the C++ form has the root itself; its `add` throws after compilation where the C++ form returns. Keywords and texts are without surrogate pairs, which its `add` and `search` split differently.
- RateLimiter.Limiter.Check: one call with no other thread in between its steps; interleavings are the subject of the runs. Which key is dropped at capacity is left to the map.
- RateLimiterRuns.WindowGuarantee: covers runs without unblocking and clearing, which empty a window, and below capacity; what eviction takes is arbitrary. That a block lasts for its duration is not stated, because a check may erase a block renewed between its two locks.
- MiniJsonText.PrintedParsed: numbers are whatever the library's conversion makes of their text; a u escape means a question mark, as in the code.
- ClientHelloWire.RoundTrip: reading the record from a connection and the raw copy of its bytes are not modelled.
- ConnTracker.Tracker.CheckConnFlood: choosing a limit by path and the text of the match are parameters or absent; the sweep's phases for the other trackers have the same shape as its first.
- ConnTrackerRuns.RequestsWithinBudget: options are fixed during a run; hot reload of options is not modelled.
- Cidr.ParsePrefix: a prefix of ten or more digits overflows an `int`, which C++ leaves undefined; here it is a number above 128.
- BruteForce.NeverMovesBackExactly: is about further failures; a success, reset, eviction or sweep forgets the history. In the JavaScript form an expired block also clears the attempts at the next check.
- BruteForce.Guard.RecordResponse: which paths and codes count is a parameter; account locking and the sweep of this guard are not modelled.
- PenaltyBox.BanLength: bans set by hand and the sweep, which erases the history of an entry that is merely unbanned, are not modelled.
- PenaltyLengths.ClosedExactly: multipliers below 1, under which bans shrink, and bases or caps below 1 ms are covered by the recurrence only.
- PenaltyBox.Box.UnbanIp: takes a valid address in normal form; `Whitelist` models the check and the normal form.
- Ewma.EwmaTracker.Update: is exact over the reals; rounding of doubles is not modelled.
