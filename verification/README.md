# Verification of the state-keeping core of an IRC daemon

This project models parts of an IRC server that keep state for a long time and whose correctness spans many
functions, and proves properties of these models. Nothing of the server is executed here.

- **Wildcard masks** (`CharAttr`, `Wildcards`, `MaskLoops`, `MaskCollapse`): what masks match and cover, the two
  loops that decide it, and the simplifier of masks.
- **Channel bans** (`BanList`, `BanMeaning`, `BanSync`, `BanChannel`): whom a ban bans and what it covers, one change
  of a ban list, and the way a MODE with several changes marks entries, links nodes of the parser into the real list
  and unpicks them again. `BanChannel` does this on linked nodes, with the per-member cache of verdicts.
- **BURST encoder** (`BurstLine`, `Burst`): four passes over the members with sorted ops and incremental levels,
  resumable over several lines, against the decoder of the receiving server.
- **Mode buffer** (`ModeLine`, `ModeRead`, `ModeFit`, `ModeFlush`, `ModeBuf`, `LimitRule`): the bounded buffer of mode
  changes with partial flush, packing down and recursion, how users and servers read its lines, how long these get,
  and which limits commands put into it.
- **Membership matrix** (`Membership`): nodes on a doubly linked list per channel and another per user, with
  counters, a free list, and the end of channels on which only zombies are left.
- **Destruction of empty channels** (`DestructEvents`): the two timer queues.
- **Delayed joins** (`DelayedJoin`): +D, and +d for a channel that lost +D while joins are hidden.
- **Connection rules** (`CruleLexer`, `Crule`, `CruleGrammar`, `CrulePrint`): scanner, parser, evaluator
  and printer of the rules, against the documented grammar.
- **Distributed database** (`Decimal`, `DdbLog`, `DdbSeek`, `HashFile`, `Ddb`): the text log with its binary search,
  the table in memory, the chained hash, and the restart from disk.
- **Byte queues** (`DBuf`): chained blocks with one free list and a pool limit, as plain sequences of bytes.
- **IP registry** (`IpRegistry`): the hash table of client addresses and its counters.

Code that works in place is modelled with classes whose methods are proved against functions on values; the main
results are then lemmas about these functions, or postconditions that hold in every state between two commands.
Functions of other files (TEA, the hash of a key, the text of an address) are parameters; what is assumed of them is
stated where it is used. Ban lists take mask matching as a parameter too; what they ask of it (`MatcherRight`) is what
`MaskLoops` shows of the two loops. `Options`, `Sequences`, `Maps` and `ChannelLimits`
are helpers.

Some results are about behaviour that differs from what one might expect:

- The parser accepts a rule with a missing operand; `EvaluableIff` says exactly when an accepted rule can be evaluated
  whatever its calls answer.
- A text ban can be held to cover an address ban by its spelling alone (`SpellingOnly`); `CoverageSoundIff` is exact
  about this.
- A batch of ban changes equals its single changes exactly if the ban limits refuse none of them
  (`LimitedBatchIsSequentialIff`).
- All limits in one mode buffer are printed from one text. One MODE has one limit at most; a BURST with the limits
  1000 and 1 prints 1 twice (`BurstPrintsLast`, `LimitTextRightIff`), and one with 1, a removal and 2147483647 can
  send a line that is too long (`BurstRises`, `TwoLimitsFitIff`).
- A bounced removal of a limit takes the next parameter for its number (`BouncedLimitTakesBan`, `BouncedLineIsReadIff`,
  `RunIsReadIff`).
- A key that users do not see is charged one character (`HiddenKeyFitsIff`); the only caller that hides keys, BURST,
  sends nothing to servers from that buffer.
- After a wipe-out members are told -d although the channel keeps it; `WipeCommand` says exactly when they still
  believe so at the end.
- The destruction of a channel does not remove its event (`Destructible`, `Sub1FromChannel`): a channel that lost its
  Apass while it waited can go and leave its event behind (`LeftBehind`).
- The parser of rules stores arguments before it counts them, so a call with more than three stores behind their slots
  before the rule is refused (`FirstCallFits`, `AcceptedFits`).
- A line of the log with more than 501 characters ends the reading of the log (`ReadableAll`, `RunAndRestart`).
- `ip_registry_connect_fail` wraps a counter of attempts that is zero to its maximum (`UndoneIff`), and a remote
  client that finds the counter of clients full sets it to zero (`CheckRemote`).

## Model

| member | source | states |
|---|---|---|
| `CruleLexer.WordLenUnique` | ircd/crule.c:436-450 | a word of valid characters in front of a character that is none is scanned whole, and nothing more |
| `MaskCollapse.CollapseFixed` | ircd/crule.c:756-763 | a mask without a star that could be reordered or doubled is left as it is by collapse, so such an argument is stored unchanged |
| `MaskCollapse.Simplify` | ircd/match.c:260-301 | the two loops, which hold a star back behind the question marks that follow it, give the simplified mask of the next two rows |
| `MaskCollapse.CollapseSame` | ircd/match.c:243-301 | a simplified mask matches exactly the texts the mask matched |
| `MaskCollapse.CollapseTidy` | ircd/match.c:243-301 | in a simplified mask no star stands in front of another wildcard |
| `Crule.Parser.ScanToken` | ircd/crule.c:373-432 | the scanner over its cursor delivers the token and the rest of text that the scanning function gives, and fails exactly where it does |
| `Crule.Parser.ScanWord` | ircd/crule.c:436-450 | takes the longest run of word characters up to the length limit and moves the cursor behind it |
| `Crule.Parser.ParseArgList` | ircd/crule.c:722-772 | collects comma separated arguments as the argument function does, with words of one argument joined, and stores each in a slot of the node exactly if there are three at most |
| `Crule.Parser.ParseFunctionCall` | ircd/crule.c:672-719 | name lookup, argument count check and parentheses: same error, same node and same scanner state as the specification |
| `Crule.Parser.ParsePrimaryExpr` | ircd/crule.c:611-669 | parentheses, chains of negations, functions, and the case of an operator where an operand should be, which gives no node and no error |
| `Crule.Parser.ParseAndExpr` | ircd/crule.c:550-607 | the loop that nests conjunctions to the left agrees with the recursive specification in error, node and scanner state |
| `Crule.Parser.ParseOrExpr` | ircd/crule.c:489-546 | the loop that nests disjunctions to the left agrees with the recursive specification in error, node and scanner state |
| `Crule.CruleParse` | ircd/crule.c:454-486 | the whole parser returns exactly the tree of the specification, or nothing, and stores all arguments in the slots of their nodes exactly if no argument list that is read has more than three |
| `Crule.AcceptedFits` | ircd/crule.c:707-712 | a rule that is accepted has stored all its arguments in their slots |
| `CruleGrammar.FirstCallFits` | ircd/crule.c:757-763 | a rule that starts with a call of more than three arguments stores behind the slots before it is refused; a rule that is only a call stores right if and only if it has three at most |
| `CruleGrammar.TreeOrMeans` | ircd/crule.c:336-366 | evaluating the left-nested tree gives the meaning of the right-recursive grammar for every truth value of the functions |
| `CruleGrammar.AcceptsExactlyTheSentences` | ircd/crule.c:54-74 | a text gets a tree without a missing operand if and only if it is a sentence of the documented grammar with right arities, and then the tree of that sentence |
| `CruleGrammar.ParsedRuleMeans` | ircd/crule.c:54-74 | every sentence is accepted and evaluates to its documented meaning, with negation over conjunction over disjunction |
| `CruleGrammar.EvaluableIff` | ircd/crule.c:336-366 | an accepted rule can be evaluated whatever its calls answer, each for itself, if and only if no operator stands where an operand is due; the short-circuit evaluation then gives the value of the tree for every function |
| `CruleGrammar.HiddenHoleEvaluates` | ircd/crule.c:336-366 | a rule like p && !p && && e is accepted with a missing operand, and yet evaluated, always to false, if equal calls answer the same |
| `CruleGrammar.MissingOperandAccepted` | ircd/crule.c:654-656 | any sentence behind a stray conjunction sign is accepted too, with a tree whose evaluation always comes to the missing operand |
| `CrulePrint.SpelledIsScanned` | ircd/crule.c:373-432 | however the tokens are spaced, the scanner delivers exactly them |
| `CrulePrint.SpelledRuleMeans` | ircd/crule.c:54-74 | a sentence written with any blanks is accepted and evaluates to its meaning |
| `CrulePrint.WordListArgs` | ircd/crule.c:722-772 | the documented list of words and commas is stored as exactly these words |
| `CrulePrint.PrintThenParse` | ircd/crule.c:816-855 | the text print_tree writes for a well-formed tree parses back to the very same tree |
| `CrulePrint.FourFunctions` | ircd/crule.c:228-235 | connected and directcon with any word, via with any two words and directop with none, in upper or lower case, are accepted as calls of these functions with the words simplified |
| `CrulePrint.OtherNamesRefused` | ircd/crule.c:684-691 | a rule that begins with any other word is refused |
| `CharAttr.FoldedLetters` | ircd/table_gen.c:141-144 | which characters are compared as one letter: A to Z, the brackets, backslash and circumflex with the braces, bar and tilde, and the letters of ISO 8859-1; all other characters fold to themselves |
| `Wildcards.SubSound` | ircd/match.c:47-69 | a mask held to cover another one token by token matches every text the other one matches |
| `Wildcards.TextIncludes` | ircd/channel.c:2769-2797 | if the text of one ban includes that of another, its user part and its host part include those of the other, for users and hosts without an at sign |
| `MaskLoops.Match` | ircd/match.c:192-240 | the loop that goes back to the last star only finds a match if and only if the mask matches the text |
| `MaskLoops.MMatch` | ircd/match.c:70-147 | the loop finds every mask that covers the other token by token, and what it finds, also by the look back at the end, matches all that the other mask matches |
| `MaskLoops.TailIncludes` | ircd/match.c:89-94 | the look back at the end is right: an older mask that has run out behind a star and question marks matches every text of the newer one |
| `BanList.CoverageSoundIff` | ircd/channel.c:2769-2797 | for every right matcher, a ban that covers another one matches all clients the other one matches if and only if it is an address mask, or the other one is none, or the other one matches nobody, or its text matches every address of the block of the other one |
| `BanList.SpellingOnly` | ircd/channel.c:2769-2797 | the mask *!*@?.2.3.0/24, which is no address mask, is held to cover *!*@1.2.3.0/24 and misses the client 1.2.3.7 |
| `BanList.AddKeepsVerdicts` | ircd/channel.c:2812-2860 | in a list where no text mask covers an address mask by its spelling only, adding an entry, refused or pruning what it covers, bans exactly the clients that appending it would ban |
| `BanList.PairVerdictsIff` | ircd/channel.c:2812-2860 | adding a plain ban to one that covers it, or the other way round, changes no verdict of a client if and only if the coverage is more than one of spelling |
| `BanList.RefusedIff` | ircd/channel.c:2820-2831 | a new entry is refused while marking if and only if an entry of the list as it will be after the clean-up covers it |
| `BanList.ApplyThenResult` | ircd/channel.c:2812-2860 | one marked change followed by the clean-up equals the same change made at once |
| `BanList.BatchIsSequential` | ircd/channel.c:2903-2918 | for any batch, marking everything first and cleaning up once leaves what the changes leave one at a time |
| `BanList.StepsIncomparable` | ircd/channel.c:2812-2860 | over any changes no entry of the list covers another one |
| `BanMeaning.OneBanBans` | ircd/channel.c:372-423 | a single ban bans a client exactly if its user part matches and the client is in its block or its host part matches the host, the text of the address or the alias; an exception alone bans nobody |
| `BanMeaning.ListBans` | ircd/channel.c:372-423 | the same for a list: some ban and no exception is so met by the client |
| `BanMeaning.CoversIffBlocks` | ircd/channel.c:2769-2797 | an address ban covers another one exactly if its block contains every address of the other block and the texts cover; a ban never covers an exception |
| `BanMeaning.CoversIffTexts` | ircd/channel.c:2769-2797 | if one of the two is no address ban, exactly the texts decide |
| `BanMeaning.RemovalRemoves` | ircd/channel.c:2832-2849 | the removal of a ban leaves a list without it |
| `BanMeaning.ListedIsRefused` | ircd/channel.c:2820-2831 | adding a ban that is listed changes nothing |
| `BanMeaning.RemovedAreGone` | ircd/channel.c:2925-3016 | after a MODE each ban that it removed and did not add again is gone, whatever the limits |
| `BanMeaning.ListedChangeNothing` | ircd/channel.c:2925-3016 | a MODE that adds only bans that are listed changes nothing and announces nothing |
| `BanMeaning.LastAdditionCounts` | ircd/channel.c:2925-3016 | without limits the ban a MODE added last, or one that covers it, is installed |
| `BanMeaning.OneMoreAccepted` | ircd/channel.c:2976-2989 | the next addition is let in exactly if the bans and their characters then come to no more than the limits, the limits included |
| `BanSync.AcceptedAll` | ircd/channel.c:2976-2989 | the limits let every addition in if and only if the list with all of them fits |
| `BanSync.LimitedBatchIsSequentialIff` | ircd/channel.c:2925-3016 | a batch equals its changes one by one if and only if the ban limits refuse none of its surviving additions |
| `BanSync.ReplayConverges` | ircd/channel.c:2925-3016 | the announced changes turn an equal list on another server into the list installed here |
| `BanSync.InstalledIncomparable` | ircd/channel.c:2925-3016 | whatever the limits refuse, no installed ban covers another |
| `BanSync.WalkOutcome` | ircd/channel.c:2925-3016 | the node by node walk keeps, installs and announces exactly what the batch asks for |
| `BanSync.SilentMeansUnchanged` | ircd/channel.c:2955-3015 | a batch that announces nothing leaves the list as it was, so cached verdicts may stay |
| `BanChannel.Channel.FindBan` | ircd/channel.c:372-423 | the walk over the linked list finds a ban if and only if some ban matches and no exception does, and then the first one that matches; a plain ban that the client meets is found unless an exception is met |
| `BanChannel.Channel.IsBanned` | ircd/channel.c:433-446 | the cached verdict equals the slow check on the current list |
| `BanChannel.Channel.Join` | ircd/channel.c:457-490 | a new member has no cached verdict; every cached verdict stays right |
| `BanChannel.Channel.Part` | ircd/channel.c:504-541 | a member goes; every cached verdict stays right |
| `BanChannel.Channel.Invalidate` | ircd/channel.c:2219-2225 | afterwards no member has a cached verdict |
| `BanChannel.Channel.CoveredByActive` | ircd/channel.c:2820-2831 | finds out whether an entry that is not marked for deletion covers the new one |
| `BanChannel.Channel.MarkCovered` | ircd/channel.c:2832-2849 | marks exactly the entries the new one covers and returns the last node |
| `BanChannel.Channel.ApplyBan` | ircd/channel.c:2812-2860 | return code, marks and linking of the node for every case of an addition or a removal |
| `BanChannel.Channel.ClipOut` | ircd/channel.c:2949-2966 | unlinking a deleted ban keeps the rest of the list linked and disjoint from the nodes of the parser |
| `BanChannel.Channel.BreakList` | ircd/channel.c:2969-2973 | the list is cut in front of the nodes of the parser, also when the last node kept is one of them |
| `BanChannel.Channel.Install` | ircd/channel.c:2989-3006 | an accepted ban gets a new node in front of the list |
| `BanChannel.Channel.ProcessNode` | ircd/channel.c:2933-3012 | one round of the clean-up keeps the invariant of the whole pass: list, counts, announcements |
| `BanChannel.Channel.RunPass` | ircd/channel.c:2925-3016 | afterwards the list holds exactly the installed bans in order and no node of the parser |
| `BanChannel.Channel.ProcessBans` | ircd/channel.c:2925-3016 | as RunPass; cached verdicts are dropped exactly if something was announced |
| `BanChannel.Channel.CleanMarks` | ircd/channel.c:2903-2908 | the first ban of a MODE clears the marks of former ones |
| `BanChannel.Channel.ParseBans` | ircd/channel.c:2866-2919 | the marked list after all changes of a MODE, with every node that was there still in place and nodes of the parser behind them |
| `BanChannel.Channel.ApplyMode` | ircd/channel.c:2866-3016 | a whole MODE: the installed list and the announcement; bans it removes are gone, without limits the last ban added is covered, and adding listed bans changes nothing; incomparable bans stay incomparable, cached verdicts right in every state between commands, and no node of the parser in the list |
| `BurstLine.TagIsRead` | ircd/m_burst.c:392-454 | the receiver reads every mark of the sender back to voice, op and level of the member |
| `BurstLine.LineIsLossless` | ircd/m_burst.c:375-454 | reading a line gives back its members with their modes, whatever line of the burst it is |
| `Burst.SortByLevel` | ircd/channel.c:927-938 | the ops sorted by level, the same ones |
| `Burst.PassesTakeAll` | ircd/channel.c:996-1116 | the four passes take every member exactly once |
| `Burst.Mark` | ircd/channel.c:1040-1083 | a full mark when the mode is new in the line: a colon, v for a voice, then o or the level for an op; else nothing, or a colon and the growth of the level; at most five characters, and the mark that the reader of the line expects |
| `Burst.Pass` | ircd/channel.c:1007-1092 | one pass over its members, resumable in the middle: nothing is dropped or sent twice and the room is accounted for |
| `Burst.NextPass` | ircd/channel.c:1094-1114 | the end of a pass keeps what has been sent and starts the next on the right list |
| `Burst.FillNicks` | ircd/channel.c:1005-1116 | the passes of one line; a line with room for one entry makes progress |
| `Burst.FillBans` | ircd/channel.c:1118-1136 | the bans of one line are the next ones in order, within the room, and progress is made if one fits |
| `Burst.SendLine` | ircd/channel.c:986-1142 | one line: its nicks and bans follow those sent, it fits, and it makes progress if it has the room of an entry |
| `Burst.SendChannelModes` | ircd/channel.c:943-1147 | the loop over lines ends, and reading all lines gives every member exactly once with voice, op and level, plain members first, then voices, ops and ops with voice by level, and every ban in order; the text of each line fits |
| `ModeLine.NothingLost` | ircd/channel.c:1677-1740 | what a flush sends and what it holds back is together what was there |
| `ModeLine.FirstIsSent` | ircd/channel.c:1677-1740 | a flush sends at least one mode if each is shorter than the budget |
| `ModeFit.LimitTextRightIff` | ircd/channel.c:1727-1738 | the one text printed for limits is right for each of them if and only if they agree |
| `ModeFit.VisibleLineFits` | ircd/channel.c:1613 | the parameters users see in one flush total at most the budget (312 characters), if the limit printed is no longer than any limit charged |
| `ModeFit.ServerLineFits` | ircd/channel.c:1655-1660 | so do the parameters servers are sent, with the six characters of a source to be deopped, if no key is charged as hidden |
| `ModeFit.TwoLimitsFitIff` | ircd/channel.c:1727-1738 | two limits in one buffer leave the line within its budget, whatever four bans of at most 90 characters follow them, if and only if the second is no longer than the first |
| `ModeFit.HiddenKeyFitsIff` | ircd/channel.c:1715-1726 | a key hidden from users leaves the parameters for servers within the budget, whatever four bans follow it, if and only if it has one character |
| `ModeFit.ChargedAs` | ircd/channel.c:1686-1738 | what each kind of mode is charged: a client nine characters or a longer nick, anything else its parameter |
| `LimitRule.OnePerParameter` | ircd/channel.c:2345-2347 | one parameter of modes puts at most one limit into the buffer |
| `LimitRule.BurstFalls` | ircd/channel.c:2340-2343 | a BURST without removals of limits puts limits into its buffer that only fall, and the last one is that of the channel |
| `LimitRule.BurstRises` | ircd/channel.c:2335-2364 | with a removal in between any two limits can meet in the buffer of a BURST, and bans can then overflow the line if and only if the second is longer |
| `LimitRule.BurstPrintsLast` | ircd/channel.c:2340-2343 | two parameters of a BURST that lower the limit both reach the buffer, and users are shown the lower one twice |
| `LimitRule.CommandFits` | ircd/channel.c:2302-2365 | all limit texts of one MODE command are right, and each line of its run fits, unless servers are sent a key hidden from users |
| `LimitRule.BurstFits` | ircd/channel.c:2302-2365 | each line of a BURST without removals of limits fits |
| `ModeRead.LineIsRead` | ircd/channel.c:1833-1930 | the line for users, and the line for servers, pairs every mode with its own parameter in its own direction, removals behind the minus sign first, whatever follows the line |
| `ModeRead.BouncedLineIsReadIff` | ircd/channel.c:1905-1915 | a bounced line reads as the same changes with the sense reversed if and only if no limit was removed, whose letter goes out without a number |
| `ModeRead.BouncedLimitTakesBan` | ircd/channel.c:2045-2048 | the bounced removal of a limit and a ban is read as a limit with the text of the ban for its number |
| `ModeRead.MeaningIsOwn` | ircd/channel.c:1757-1893 | the changes with arguments that a line means are those of its modes, each once, in its direction and with the argument its reader is due: for users the nick, the text of a ban, a star for a password or a hidden key; for servers the numeric with a level below 999, and the texts |
| `ModeFlush.FlushIsReadIff` | ircd/channel.c:1833-1930 | users and servers read the line of a flush as it is meant, for a bounce if and only if the flush removes no limit |
| `ModeBuf.ModeBuf.MarkSlots` | ircd/channel.c:1677-1740 | the first loop marks exactly the modes that must wait and collects letters and limit text of the others |
| `ModeBuf.ModeBuf.BuildShown` | ircd/channel.c:1757-1800 | the parameters for users are those of the modes being sent, in order |
| `ModeBuf.ModeBuf.BuildWire` | ircd/channel.c:1850-1893 | the parameters for servers are those of the modes being sent, in order |
| `ModeBuf.ModeBuf.PackDown` | ircd/channel.c:1937-1952 | the saved modes move to the front in order, the other slots are free, and each owned text of a sent mode is freed |
| `ModeBuf.ModeBuf.FlushOnce` | ircd/channel.c:1559-1957 | one flush: what fits is sent in a right line to each destination, which its reader reads by the rows above, the rest stays, and simple modes are gone |
| `ModeBuf.ModeBuf.FlushInt` | ircd/channel.c:1559-1957 | the recursion ends, nothing appended is lost or doubled, each destination gets a line of every flush, and a full flush leaves nothing |
| `ModeBuf.ModeBuf.AppendSimple` | ircd/channel.c:2006-2031 | simple modes replace each other in the two sets |
| `ModeBuf.ModeBuf.RemoveLimit` | ircd/channel.c:2040-2053 | the removal of a limit takes no slot |
| `ModeBuf.ModeBuf.Append` | ircd/channel.c:2039-2109 | an append always finds a free slot and adds exactly its mode to what is placed or waiting; the buffer is flushed exactly if six modes, or five with a source to be deopped, are then waiting |
| `ModeBuf.Run` | ircd/channel.c:2039-2120 | any sequence of modes and a full flush: each mode with an argument is placed exactly once, the texts freed are exactly those the modes own, each once if each is owned once, and the run is finished in the sense of the rows below |
| `ModeBuf.RunIsReadIff` | ircd/channel.c:1833-1930 | each line of a run, for users or servers, is read as it is meant, for a bounce if and only if no limit was removed in the run |
| `ModeBuf.RunIsTaken` | ircd/channel.c:1757-1957 | users or servers that read all lines of a run take each mode with an argument exactly once, in its direction and with the argument they are due, the removal of a limit if there was one, and servers the deop of the source once, and end with the simple modes that all steps in turn leave; all reversed for a bounce; the limits must agree, and a bounce must remove none |
| `ModeBuf.RunFits` | ircd/channel.c:1613 | if no limit is longer than an earlier one, every line of a run fits, for servers unless a key is hidden |
| `Membership.MinusIsWithout` | ircd/channel.c:509-515 | unlinking by position and removal from the list of members agree |
| `Membership.MinusKeepsOthers` | ircd/channel.c:509-515 | a removal drops one node and keeps all others |
| `Membership.Channel.Push` | ircd/channel.c:474-479 | linking in front keeps the list doubly linked and acyclic |
| `Membership.Channel.Unlink` | ircd/channel.c:509-515 | unlinking at any place keeps the list doubly linked and acyclic |
| `Membership.User.Push` | ircd/channel.c:481-485 | the same for the list of a user |
| `Membership.User.Unlink` | ircd/channel.c:526-532 | the same for the list of a user |
| `Membership.Matrix.SinglePair` | ircd/channel.c:457-495 | between commands a user has at most one node on a channel |
| `Membership.Matrix.FindMemberLink` | ircd/channel.c:169-207 | the one node of user and channel, or nothing if there is none, the same answer whichever list is walked |
| `Membership.Matrix.NewChannel` | ircd/channel.c:457-495 | a channel nobody is on; the matrix stays well formed |
| `Membership.Matrix.Alloc` | ircd/channel.c:463-473 | a node of the free list, or a new one, that is on no list |
| `Membership.Matrix.AddUserToChannel` | ircd/channel.c:457-495 | the new node heads both lists, the counters grow, every list stays linked, and every channel keeps a member that is not a zombie |
| `Membership.Matrix.LeaveChannel` | ircd/channel.c:509-515 | the half of a removal on the side of the channel; lists of other channels do not feel it |
| `Membership.Matrix.LeaveUser` | ircd/channel.c:526-534 | the half of a removal on the side of the user; lists of other users do not feel it |
| `Membership.Matrix.Release` | ircd/channel.c:536-538 | a node that left both lists heads the free list |
| `Membership.Matrix.Sub1FromChannel` | ircd/channel.c:251-305 | the count equals the length again, and a channel is destroyed exactly if it is empty, without Apass, and oplevels are off |
| `Membership.Matrix.RemoveMember` | ircd/channel.c:504-541 | exactly this membership goes, both lists lose this node only, and both directions, counters and free list stay right |
| `Membership.Matrix.ChannelAllZombies` | ircd/channel.c:548-559 | true exactly if every member of the channel is a zombie |
| `Membership.Matrix.RemoveEveryone` | ircd/channel.c:576-582 | the loop ends with the channel empty and everybody else untouched, and never reads the channel after its last member is gone |
| `Membership.Matrix.LeavingMeans` | ircd/channel.c:568-585 | who is left on a channel: all if the user was not there, all but the user if somebody else there is no zombie, else nobody |
| `Membership.Matrix.RemoveUserFromChannel` | ircd/channel.c:568-586 | the memberships left are those of the others, or none of the channel if only zombies are left on it |
| `Membership.Matrix.RemovalIsHealthy` | ircd/channel.c:568-586 | after a removal every channel that still has members has one that is not a zombie |
| `Membership.Matrix.RemoveUserFromAllChannels` | ircd/channel.c:594-604 | the loop ends with the user on no channel, and exactly the deserted channels of the user lose all members |
| `Membership.Matrix.MakeZombie` | ircd/channel.c:1449-1487 | for every case of a kick: who stays, who goes, and that no channel is left with only zombies |
| `DestructEvents.Queue.Append` | ircd/destruct_event.c:59-79 | the new event is on top, both directions are linked, and expiry times still grow towards the top |
| `DestructEvents.Bypass` | ircd/destruct_event.c:120-123 | the neighbours of an event are linked with each other in both directions |
| `DestructEvents.Unlink` | ircd/destruct_event.c:113-138 | the event leaves its own queue, and the corrections of all four ends leave the other queue alone |
| `DestructEvents.Timers.Schedule` | ircd/destruct_event.c:59-107 | a channel that has an event keeps it; any other gets one with the delay of the queue |
| `DestructEvents.Timers.RemoveDestructEvent` | ircd/destruct_event.c:113-138 | exactly this event goes from the two queues, and its channel has none |
| `DestructEvents.Timers.Join` | ircd/channel.c:489-493 | a channel with a member has no event; all other events stay |
| `DestructEvents.Timers.Destructible` | ircd/channel.c:317-343 | after the destruction of a channel every event is still one of an existing channel if and only if it had none |
| `DestructEvents.Timers.Sub1FromChannel` | ircd/channel.c:251-305 | when the last member goes the channel is destroyed or has an event a minute or two days ahead; an empty one keeps its event; afterwards events and channels still belong to each other if and only if there was no event, or Apass or oplevels keep the channel |
| `DestructEvents.Timers.SetApass` | ircd/channel.c:2746-2749 | Apass can change while an empty channel waits for its destruction |
| `DestructEvents.LeftBehind` | ircd/m_endburst.c:71-79 | without oplevels: a channel with Apass loses its last member, the Apass is taken away, and the call at the end of a burst destroys the channel and leaves its event on the queue |
| `DestructEvents.Timers.Expire` | ircd/destruct_event.c:144-159 | all and only the expired events of a queue run, each destroying its channel |
| `DestructEvents.Timers.ExecExpired` | ircd/destruct_event.c:144-159 | a tick destroys exactly the channels whose event has expired, all of them empty, and leaves no expired event |
| `DelayedJoin.Channel.FindDelayedJoins` | ircd/channel.c:1537-1546 | true exactly if some join is still hidden |
| `DelayedJoin.Channel.CheckDelayedJoins` | ircd/channel.c:3790-3797 | +d goes, and the members are told, exactly when no join is hidden any more |
| `DelayedJoin.Channel.Reveal` | ircd/channel.c:3769-3786 | one join is revealed; the modes stay settled and what the members were told stays right |
| `DelayedJoin.Channel.Join` | ircd/channel.c:3602-3608 | a join is hidden exactly on a +D channel for a user without op or voice |
| `DelayedJoin.Channel.Remove` | ircd/channel.c:519-523 | after any removal the modes are settled and what the members were told is right |
| `DelayedJoin.ModeBuf.Simple` | ircd/channel.c:3480-3499 | +D and -D as mode_parse applies them keep the invariant of a command in progress |
| `DelayedJoin.ModeBuf.Grant` | ircd/channel.c:3199-3206 | op or voice reveals a hidden join unless the member is a zombie; everybody else, and a zombie, stays as before |
| `DelayedJoin.StepsMean` | ircd/channel.c:3199-3206 | over any steps nobody is lost or exchanged, and a join is hidden at the end exactly if it was hidden at first or on entering and the member was given neither op nor voice or is a zombie |
| `DelayedJoin.LastModeCounts` | ircd/channel.c:3480-3499 | the last +D or -D of a command decides |
| `DelayedJoin.ModeBuf.Flush` | ircd/channel.c:1636-1651 | after a flush +d holds exactly if joins are hidden on a channel without +D |
| `DelayedJoin.ModeBuf.Steps` | ircd/channel.c:3480-3499 | any mix of mode changes, grants, joins and flushes in between |
| `DelayedJoin.ModeBuf.Command` | ircd/channel.c:1636-1651 | after any completed command: +d if and only if hidden joins and no +D, the members know the modes, and each member is hidden exactly as the steps ask |
| `DelayedJoin.ModeBuf.WipeCommand` | ircd/m_burst.c:278-300 | after a wipe-out and any further steps the modes are settled, and the members know them if and only if the channel was not +d, or at some point no join was hidden, or a flush found it +D |
| `DdbLog.Read` | ircd/ddb_db_native.c:385-408 | one line without carriage returns, or the end for a line of more than 501 characters or without line feed |
| `DdbLog.StripIs` | ircd/ddb_db_native.c:385-409 | of a line that is read exactly the carriage returns go |
| `DdbLog.IdOfLine` | ircd/ddb_db_native.c:262-264 | atoi at the start of a written line reads its id |
| `DdbLog.ParseLine` | ircd/ddb_db_native.c:182-198 | reading a written line gives the register back, with or without content |
| `DdbLog.ReadsLine` | ircd/ddb_db_native.c:385-408 | reading at the start of a line of the file meets exactly this line |
| `DdbSeek.BackToLine` | ircd/ddb_db_native.c:431-438 | the first inner loop stops at the start of the line that holds the middle, or behind the line feed that is the middle |
| `DdbSeek.SkipLine` | ircd/ddb_db_native.c:439 | the second inner loop stops behind the line feed at or after the middle |
| `DdbSeek.Arrive` | ircd/ddb_db_native.c:431-439 | wherever the middle is, both loops arrive at starts of lines inside the bounds |
| `DdbSeek.FirstFromIs` | ircd/ddb_db_native.c:415-455 | the first record whose id is at least the one asked for is characterized by the ids before it and its own |
| `DdbSeek.Seek` | ircd/ddb_db_native.c:415-455 | on increasing ids the search ends at the first record whose id is at least the one asked for, or at the end of the file |
| `DdbSeek.ReadableAll` | ircd/ddb_db_native.c:385-408 | a log can be read to its end if and only if none of its lines is longer than 501 characters |
| `DdbSeek.ReadLog` | ircd/ddb_db_native.c:137-227 | the records from the id on, in order, up to the first line that is too long |
| `HashFile.IntToBase64` | ircd/numnicks.c:153-161 | fills exactly its digits, from the last to the first |
| `HashFile.Base64ToInt` | ircd/numnicks.c:138-146 | the number of a text in 32 bits |
| `HashFile.SixDigits` | ircd/numnicks.c:138-161 | a 32-bit number written with six digits is read back |
| `HashFile.StoreThenLoad` | ircd/ddb_db_native.c:313-370 | a stored hash is read back |
| `HashFile.StoreKeepsOthers` | ircd/ddb_db_native.c:348-370 | storing the hash of a table keeps those of the others |
| `HashFile.RecordIs` | ircd/ddb_db_native.c:348-370 | the record of a table: letter, space, six digits for each word, line feed, at fifteen characters a table; nothing else in the file changes |
| `HashFile.DigitIs` | ircd/numnicks.c:104-109 | the digits are capitals, small letters, decimal digits and two brackets, in order |
| `HashFile.DigitOrder` | ircd/numnicks.c:138-146 | the first of two digits counts 64 times the second |
| `Ddb.Table.DelKey` | ircd/ddb.c:419-445 | the chains lose exactly this key and still hold exactly the map |
| `Ddb.Table.AddKey` | ircd/ddb.c:377-411 | the chains hold exactly the map with the new content; the result says whether the key was there |
| `Ddb.Table.FindKey` | ircd/ddb.c:625-660 | the content of the lower-case key, or nothing |
| `Ddb.Table.Record` | ircd/ddb.c:316-330 | the hash goes on over the words of the register, written out here, and log and stored hash follow it for a register from the network; hashes of other tables stay |
| `Ddb.Table.NewRegister` | ircd/ddb.c:306-367 | for a resident table and a mask for this server a register with content sets its key to it, one without content removes the key, and otherwise nothing changes; the memory is what all registers so far make of an empty table, and disk and memory agree after a register from the network |
| `Ddb.Env.LastRegisterCounts` | ircd/ddb.c:337-367 | after any registers a key has the content of the last one about it that is for this server, or is missing if that one had none or there was none |
| `Ddb.Table.DropMemory` | ircd/ddb.c:469-508 | an empty table with the first hash and no last id |
| `Ddb.Table.TableInit` | ircd/ddb.c:223-298 | the table comes back exactly if no line of its log is too long; it is dropped exactly if the hash of what was read is not the stored one |
| `Ddb.Table.Restart` | ircd/ddb.c:223-298 | a table whose log is readable comes back with the same map up to the key of a packed table, the same hash and last id |
| `Ddb.Table.RunAndRestart` | ircd/ddb.c:223-298 | any registers from the network into an empty table, then a restart: all of it is there again if and only if every line is short enough, and then each key but the explanation has what its last register said |
| `Ddb.AfterOneMore` | ircd/ddb.c:306-367 | map, hash and last id after one more register |
| `Ddb.Table.Iterate` | ircd/ddb.c:555-586 | the next entry not given yet, or the end |
| `Ddb.Table.IterateFirst` | ircd/ddb.c:593-604 | the first entry of the walk |
| `Ddb.FlatIsMap` | ircd/ddb.c:555-586 | a walk over the table meets every pair of the map, and each key once |
| `DBuf.Pool.Alloc` | ircd/dbuf.c:86-101 | a block of the free list or a new one, and none exactly if the free list is empty and the limit is reached; allocated blocks are used plus free ones |
| `DBuf.Pool.Free` | ircd/dbuf.c:106-112 | the block is free and has no owner; the counters still balance |
| `DBuf.Queue.MallocError` | ircd/dbuf.c:120-133 | all blocks of this queue, and no others, are given back |
| `DBuf.Queue.PutStep` | ircd/dbuf.c:164-208 | one block is filled as far as it goes; no linked block is empty |
| `DBuf.Queue.Put` | ircd/dbuf.c:141-210 | the bytes are appended, or the queue is emptied, the latter if and only if the pool has not enough blocks left |
| `DBuf.Queue.Map` | ircd/dbuf.c:219-232 | the bytes of the first block, a prefix of the contents, empty only for an empty queue |
| `DBuf.Queue.Delete` | ircd/dbuf.c:239-270 | exactly the first bytes go, and with them the blocks they filled |
| `DBuf.Queue.Get` | ircd/dbuf.c:278-300 | the bytes removed, followed by what is left, are what was there |
| `DBuf.Queue.Flush` | ircd/dbuf.c:306-333 | what is left is a suffix of what was there, only carriage returns and line feeds are gone, and it does not begin with one |
| `DBuf.Queue.Search` | ircd/dbuf.c:363-389 | finds a line end across block borders if and only if one is below the length |
| `DBuf.Queue.GetMsg` | ircd/dbuf.c:343-391 | line ends in front go; then a line is taken up to the first line end, with all line ends behind it, if and only if that line end is at an index below the length, else nothing more |
| `DBuf.Queue.Separate` | ircd/dbuf.c:86-133 | two queues share no blocks and no arrays |
| `DBuf.PutBeside` | ircd/dbuf.c:120-133 | a put to one queue, also a failed one, leaves another queue of the pool as it is |
| `IpRegistry.MatchIsExact` | ircd/IPcheck.c:141-152 | in the bucket of a prefix the comparison, which looks at 48 bits of a 6to4 prefix only, is exact on 64 bits |
| `IpRegistry.SharedEntry` | ircd/IPcheck.c:104-119 | which addresses share an entry: all forms of one IPv4 address and its own 6to4 prefix, otherwise equal /64 prefixes |
| `IpRegistry.PrefixOf` | ircd/IPcheck.c:104-119 | ::ffff:a.b, and ::a.b with a not zero, count as IPv4 and get the prefix 2002:a:b:0; any other address gets its first four words; the only invalid addresses are :: and ::ffff:0:0 |
| `IpRegistry.InARow` | ircd/IPcheck.c:417-418 | k tries in a row raise a counter by k, up to its maximum |
| `IpRegistry.FailuresInARow` | ircd/IPcheck.c:514-524 | k failures take a counter down by k, but not below one; from zero it wraps to the maximum first |
| `IpRegistry.UndoneIff` | ircd/IPcheck.c:520-524 | a connection that fails later leaves the attempts as before if and only if they were at least one and below the maximum (or one, if they had been reset) |
| `IpRegistry.Registry.Find` | ircd/IPcheck.c:141-152 | finds an entry if and only if the map has the canonical prefix, and then its counters |
| `IpRegistry.Registry.Add` | ircd/IPcheck.c:158-163 | the table holds the map with the new entry |
| `IpRegistry.Registry.CheckLocal` | ircd/IPcheck.c:360-440 | a local client is refused exactly if the counter of clients is full, or the server is up for a while and the tries, this one included, reach the limit of its entry or, for IPv6, of its /48 block; the counters afterwards in every case, and that refusals do not change the number of clients |
| `IpRegistry.Registry.CheckRemote` | ircd/IPcheck.c:451-502 | the counters afterwards in every case; the number of clients stays exact if and only if it was below 65535 |
| `IpRegistry.Registry.ConnectFail` | ircd/IPcheck.c:510-530 | attempts one lower but never zero, wrapping from zero to the maximum; one client less if asked |
| `IpRegistry.Registry.Disconnect` | ircd/IPcheck.c:561-583 | one client less at the prefix, and no change elsewhere |
| `IpRegistry.Registry.Count` | ircd/IPcheck.c:637-641 | the number of accepted and not yet released clients of the prefix |
| `IpRegistry.Registry.Expire` | ircd/IPcheck.c:314-343 | exactly the stale entries without clients go, so the numbers of clients stay exact, and exactly the stale /48 blocks |

## Left out

- The bounce path of `mode_process_bans` (a MODE that is not applied), and MAXPARA for bans in one command.
- Ban exceptions in channel lists: the code has them only in silence lists; `BanList` covers them, `m_silence` is not modelled.
- The early return in `mode_parse` during an unfinished burst, which skips the clean-up of bans.
- Author and time of a ban, the free list of ban nodes, and freeing of memory in general where no property depends on it.
- MaskCollapse.Simplify: writes a new text where `collapse` overwrites the old one.
- The cipher `ircd_tea`, and the hash of a key in the table.
- Wildcards.Straight: `match` takes the backslash of an escape directly behind a wildcard for an ordinary character; masks with one are excluded, and masks are sequences of tokens in the loops.
- MaskLoops.LookBack: finds nothing for an empty mask, in front of which the source reads a character.
- Connection rules: error texts; the tree nodes whose children the parser fills in place are values here, and what lies behind the slots of a node is not modelled.
- The BURST line: prefix, modes and topic count only as room already used; `qsort` is any sort by level.
- Mode buffer: texts of notices and prefixes of lines; arrays of letters such as addbuf are sequences without a size; opmode and hidden-source variants of the header; the letter d, which only users see; the destinations of a buffer do not change, so a MODE that becomes a bounce when its timestamp is read is not modelled.
- ModeRead.Scan: pairs letters with parameters only; which changes a server then refuses is not modelled.
- ModeFit.VisibleLineFits: has the condition that the printed limit is no longer than one charged, because `TwoLimitsFitIff` shows that the statement fails without it; `CommandFits` and `BurstFits` show when callers keep it.
- ModeFit.ServerLineFits: has the condition that no key is hidden, because `HiddenKeyFitsIff` shows that the statement fails without it.
- Membership: oplevels and flags other than zombie; servers, which are never on a channel. Ban cache, destruction events and delayed joins are modelled beside it, each on its own view of a channel.
- Membership.Matrix.Sub1FromChannel: does not model the reset of modes, bans and invites of a channel that becomes empty.
- DelayedJoin: the bounce path of the flush; the two messages that reveal a join.
- Database: `ddb_compact`, tables spread over the network, events of tables, the cache of answers, file errors and the check of file times, and the argument `count` of `ddb_db_read`.
- Ddb.Table.DelKey: hash chains are sequences in an array of buckets, so the rewiring of next pointers inside a chain is not captured.
- Database lines longer than the print buffer of 1024 characters, which the line limit of the protocol excludes.
- DBuf.Queue.Put: does not model the flush of all connections when no block is left, after which one more block is tried.
- DBuf.Block.Fill: a copy of memory is one step.
- IP registry: the 16-bit clock and all times (each comparison of times is a parameter), free targets, `ip_registry_connect_succeeded`.
- IpRegistry.Registry.Set: hash chains are sequences in an array of buckets, and the free list of entries is not modelled; the table of /48 blocks is a map.
- Sockets, event engines, configuration and all sending of messages.
