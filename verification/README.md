# A verified model of the Click library's core algorithms

Click is a modular software router: a configuration text describes packet-processing elements
and the connections between them, and the library parses it, flattens compound elements, names
things, keeps time and file descriptors, and hands packets on. This project models the parts of
that library whose correctness rests on an argument the code does not spell out, and proves the
argument in Dafny. It also covers the traffic classifier that this tree adds to Click.

| file | what it models |
|---|---|
| `Flattening.dfy`, `TunnelCycle.dfy` | tunnels: compound elements replaced by direct connections |
| `Connections.dfy` | one connection statement: port lists zipped and padded |
| `TypeTable.dfy` | the lexer's element types: chain, free list and name map |
| `Sorting.dfy` | `click_qsort` with its explicit stack |
| `Lists.dfy` | linked lists as sequences of ids, shared by the type table and the name tree |
| `Strings.dfy`, `Ino.dfy` | the sorted directory index over slash-separated names |
| `NameTree.dfy`, `NameDB.dfy` | scoped name databases, and one self-sorting database |
| `ConfParse.dfy`, `Uncomment.dfy`, `Escapes.dfy` | quoting, unquoting, splitting and uncommenting of configuration strings |
| `IP4Text.dfy`, `IP6Text.dfy`, `IP6Forms.dfy`, `IP6Suffix.dfy` | text of IPv4 and IPv6 addresses, and which texts are accepted |
| `SelectSet.dfy` | file descriptors waited for, with swap-with-last removal |
| `Md5.dfy`, `Cksum.dfy`, `Integers.dfy` | MD5 streaming, the Internet checksum, square roots |
| `Classifier.dfy` | the traffic classifier's packet state machine |

How the model is built:

- Objects that the source changes in place are classes with the same fields; their methods have
  the source's loops. Pointers between nodes (tunnel ends, name databases, element types) are
  indexes into a sequence that stands for the heap, so links, sharing and relinking are explicit.
- Strings are sequences of characters that stand for bytes. Integers are unbounded unless the
  width matters; where it does (MD5 counters, checksum accumulator, `int_sqrt`, the length test in
  `md5_append`, the 16-bit groups of an address, the 16-bit numbers in the directory index)
  wrap-around is written out.
- Comparators, the MD5 compression function, name services, the clock and decoded packet fields
  are parameters.
- Long methods of the source are cut into several Dafny methods, one for each step.
- Where a definition is used by the code and by its specification alike (digits, escapes, word order,
  port lists, contexts, thresholds), lemmas say what it computes in terms of the characters, bytes or
  numbers themselves.

Places where the code does something other than what one would expect, each kept as it is and
stated exactly:

- `IP6AddressArg::basic_parse` writes behind its eight groups exactly on two kinds of text
  (`IP6Forms.SpillsExactly`): seven groups, `::` and a digit; and six groups, `::`, perhaps a third
  colon, and something that is not a group but that resolves to an IPv4 address, either because the
  name service knows it or, behind a third colon, because it is one. `IP6Forms.SevenThenDigit`,
  `IP6Forms.SixThenName` and `IP6Forms.SixThenDotted` give the inputs.
- The same function reports failure by returning the beginning of the text, which is its end exactly
  if the text is empty (`IP6Forms.FailureIsBeginning`); so the empty text is accepted, as the address
  of all ones (`IP6Forms.EmptyAccepted`).
- `ClickIno` keeps its numbers in 16 bits. The names are always listed right, but the subtree sizes
  and the index are right exactly if elements and directories together are at most 65535
  (`Ino.ClickIno.TruePrepare`). With one more the root has size 0 (`Ino.RootLost`), and
  `Ino.TooManyNames` gives names for which that happens.
- `md5_append` copies past its buffer exactly when the buffered length plus the new length
  overflows an `int` (`Md5.CopyFits`).
- `click_in_cksum` is right exactly when the 16-bit words of the buffer add up to less than 2^32.
  Every buffer of up to 131074 bytes does, and one more byte may not (`Cksum.InCksum`,
  `Cksum.OverflowBeyond`).
- `lexical_scoping_out` looks for the cookie by its id. With any adds and removes inside the scope,
  it removes the scoped types added since the cookie and nothing else if and only if the types
  between the cookie's place in the chain and the place where it was taken are not scoped
  (`TypeTable.ScopeExactly`; for every run of adds and removes, with the final chain known from the
  table before and the calls, `TypeTable.ScopeRun`). That holds if no call removes the cookie's type. If the cookie's type was removed and a scoped type
  has taken its id, that type stays (`TypeTable.StaleCookie`); if the id is free, scoped types from
  before the cookie are lost (`TypeTable.DeadCookie`).
- The IPv6 parser takes some malformed texts: three colons before an IPv4 address, and a colon at
  the end if the name service knows the empty name. All texts accepted are listed in
  `IP6Suffix.ParsesExactly`.
- `cp_uncomment` of what `cp_uncomment` gave is the same text, unless the text is spoiled: a `\<`
  escape is open where the text ends, in a comment that begins with the last two or three
  characters, and an earlier comment stands between it and the first text. Then a space is left over
  (`Uncomment.TwiceIsOnce`, `Uncomment.SpoiledEnds`, `Uncomment.BrokenTwice`).
- Splitting with `cp_argvec` what `cp_unargvec` made of the arguments `cp_argvec` found gives the same
  arguments if and only if the last one is neither empty nor spoiled (`Uncomment.ArgvecAgain`).
- Flattening loses routes when tunnels lead back to themselves: an end met while it is being expanded
  counts for nothing, and what was found behind it is kept as final. A route is connected if some
  connection on it has no cycle behind it and none ahead (`Flattening.RouteAssured`);
  `TunnelCycle.RouteLost` gives six connections with a route between two elements that are not
  connected.
- A failed `add_tunnels` leaves an end without a partner at each of the four sides that was in no
  tunnel (`Flattening.Lexer.AddTunnels`), and the source goes on to build the router. It then follows
  a null pointer (click/lib/lexer.cc:2214 or 2297) exactly if a connection is made at such a side, or
  at another port than 0 on the opposite side of such an element where that has no end at all
  (`Flattening.FlattenRouter`, with the condition `Safe`); `Flattening.NullFollowed` gives a compound
  for which every connection into it does that.
- Uncommenting drops text if a piece breaks off, that is, if a `\<` escape is open where the text ends
  and in a comment just begun: what is left is all before the last comment between pieces of text and
  a space, and nothing if there is no such comment (`Uncomment.KeptIs`, `Uncomment.LostExactly`).
  `Uncomment.AllLost` gives a text that begins with a word and of which nothing is left.

## Model

| member | source | states |
|---|---|---|
| `Flattening.Lexer.FlattenConnections` | click/lib/lexer.cc:2208-2236 | It follows a null pointer exactly if a connection calls for the partner of an end that has none. Otherwise, on every graph, the resulting connections are known exactly, with their order and number. Each joins two live elements that a route through paired tunnel ends joins, port numbers carried across; every pair is connected that some connection stands for with no cycle behind it or ahead, and so every pair joined by a route if no tunnel leads back to itself; and no tunnel end's body runs twice. |
| `Flattening.FlattenRouter` | click/lib/lexer.cc:2173-2236 | From a configuration to the router, going on after redeclarations: an error is reported exactly if an element is declared part of two tunnels; a null pointer is followed exactly if a connection calls for the partner of an end that has none, which takes such an error; and otherwise the connections are exactly those of the graph the declarations describe: routes only, and all of them without cycles. |
| `Flattening.DeclarableSafe` | click/lib/lexer.cc:1055-1089 | Without a redeclaration every end has a partner, so that no null pointer is followed. |
| `Flattening.NullFollowed` | click/lib/lexer.cc:2210-2215 | A compound that is the input pseudo-element of another is declared in part, and every connection into it makes the source follow a null pointer. |
| `Flattening.AllHarmless` | click/lib/lexer.cc:2208-2224 | Nothing is followed to null if no connection asks for a missing partner on either side. |
| `Flattening.Lexer.AddRouterConnections` | click/lib/lexer.cc:2106-2122 | The two expansions of a connection hold only ports that can be reached, all of them with no cycle ahead, and the new connections are their live pairs in order; a null pointer is followed only if some connection asks for a missing partner, and always if this one does. |
| `Flattening.Lexer.CrossProduct` | click/lib/lexer.cc:2113-2121 | Exactly the pairs whose both ends are live, in the order of the two loops. |
| `Flattening.Lexer.Expand` | click/lib/lexer.cc:2308-2353 | The memoised walk ends on every graph and gives what the pure walk gives from the same table of finished and busy ends; what it adds can be reached from the end, and with no cycle ahead is everything that can. |
| `Flattening.Lexer.ExpandBody` | click/lib/lexer.cc:2314-2349 | The body leaves the end marked finished with the list of the pure walk, sound and with no cycle ahead complete, and records the run once. |
| `Flattening.Lexer.ExpandConnection` | click/lib/lexer.cc:2355-2365 | A real port stands for itself, a paired tunnel port for what the walk finds, an unpaired one for nothing; the search for the error message disturbs nothing, unless it takes an end without a partner for a pattern. |
| `Flattening.Lexer.FindTunnel` | click/lib/lexer.cc:2260-2306 | An end is found or made exactly if the side was declared, and a new one is paired with the same port number on the other side; a null pointer is followed exactly if the side has no partner and the port is not 0. |
| `Flattening.Lexer.FindRow` | click/lib/lexer.cc:2264-2283 | The binary search finds the row of an element or the place where it belongs. |
| `Flattening.Lexer.MatchInRow` | click/lib/lexer.cc:2285-2291 | Exact match if there is one, else the port-0 end that serves as template, else proof that neither exists. |
| `Flattening.Lexer.Lookup` | click/lib/lexer.cc:2260-2291 | The directory finds every end there is. |
| `Flattening.Lexer.AddEnd` | click/lib/lexer.cc:2293-2306 | One new end; the directory stays sorted and complete. |
| `Flattening.Lexer.FindOrAddTunnel` | click/lib/lexer.cc:2260-2306 | The inserting search: an existing end unchanged, or one new end. |
| `Flattening.Lexer.AddPair` | click/lib/lexer.cc:2293-2299 | Both new ends of a tunnel port point at each other. |
| `Flattening.Lexer.AddTunnels` | click/lib/lexer.cc:1055-1089 | Succeeds exactly if none of the four sides has a tunnel yet; then two pairs join them, with four new ends if none was declared before; otherwise no existing end changes, each side is declared, and new ends without a partner are left exactly if some side was not declared. |
| `Flattening.Lexer.DeclareAll` | click/lib/lexer.cc:1077-1083 | The four sides of a compound have ends, and whether all of them are free. |
| `Flattening.Lexer.PairWith` | click/lib/lexer.cc:1084-1087 | Two ends without partners become a tunnel, and all other ends stay as they are. |
| `Flattening.JoinTunnels` | click/lib/lexer.cc:1084-1087 | Pairing two such ends keeps every other end with its partner or without one. |
| `Flattening.Lexer.Declare` | click/lib/lexer.cc:1077-1083 | One end is found or made; it is free exactly if its side is in no tunnel yet. |
| `Flattening.Lexer.FirstLevelSide` | click/lib/lexer.cc:2210-2215 | One side of one connection is entered at the opposite tunnel end; a null pointer is followed exactly if that side has no partner. |
| `Flattening.Lexer.FirstLevel` | click/lib/lexer.cc:2208-2215 | Each tunnel end's first cut lists exactly the ports connected on the far side, in order; a null pointer is followed exactly if some connection is at a side without a partner. |
| `Flattening.Lexer.LiveOnly` | click/lib/lexer.cc:2232-2236 | Exactly the connections with both ends in the router, in order. |
| `Flattening.ExpansionIsRoute` | click/lib/lexer.cc:2106-2122 | Whatever a connection expands to on both sides is joined by a route. |
| `Flattening.RouteReaches` | click/lib/lexer.cc:2308-2353 | The end of every route is reached by expansion. |
| `Flattening.RouteWired` | click/lib/lexer.cc:2217-2224 | Without cycles each route between live elements is one that must be connected. |
| `Flattening.AssuredWired` | click/lib/lexer.cc:2217-2224 | Once every connection has contributed, each assured pair of live elements is connected. |
| `Flattening.RouteAssured` | click/lib/lexer.cc:2106-2122 | A route is assured if one connection on it meets no cycle going back and none going on. |
| `Flattening.RouteReachesBack` | click/lib/lexer.cc:2308-2353 | The start of every route is reached by going back from its last connection. |
| `Flattening.ProductMembers` | click/lib/lexer.cc:2113-2121 | The two loops make a connection exactly for each pair of live ports. |
| `Flattening.ClearStep` | click/lib/lexer.cc:2345-2346 | With no cycle ahead of an end there is none ahead of any entry of its cut. |
| `TunnelCycle.RouteLost` | click/lib/lexer.cc:2308-2353 | A configuration with a tunnel cycle, where a route joins two live elements that are not connected. |
| `TunnelCycle.FlattenLoop` | click/lib/lexer.cc:2173-2236 | The same for a run of the whole flattening. |
| `TunnelCycle.NextDeadEnd` | click/lib/lexer.cc:2311-2312 | Ends whose way on leads to an end in progress are finished with empty lists. |
| `Flattening.NoCycleIsAcyclic` | click/lib/lexer.cc:2311-2312 | A graph without tunnel cycles never meets an end that is still being expanded. |
| `Flattening.FirstCutMembers` | click/lib/lexer.cc:2208-2215 | A port is in the first cut exactly if a connection of the configuration puts it there. |
| `Flattening.CompleteAll` | click/lib/lexer.cc:2345-2352 | Expanding every entry of the first cut gives everything reachable. |
| `Connections.ConnectAll` | click/lib/lexer.cc:1511-1587 | Accepted exactly if at most one list is expandable and one side is a single port or `=>` joins sides of equal length; then the connections are the pairwise zip of the padded port lists, a single port repeated. With or without errors each output connected is written in an output list of the left side, or continues one, and each input in an input list of the right side. |
| `Connections.EmittedFrom` | click/lib/lexer.cc:1552-1586 | Whatever is connected is written in the statement: outputs of the left elements, inputs of the right ones. |
| `Connections.SinglePorts` | click/lib/lexer.cc:1511-1587 | `a[p] -> [q]b` is accepted and connects port p of a to port q of b. |
| `Connections.ListedPorts` | click/lib/lexer.cc:1552-1586 | Listed ports are connected in order, a single one with each of the other side. |
| `Connections.ExpandedOutputs` | click/lib/lexer.cc:1568-1575 | An expandable output list goes on with consecutive numbers, as far as inputs are listed. |
| `Connections.ExpandedInputs` | click/lib/lexer.cc:1568-1575 | The same for an expandable input list. |
| `Connections.MissingOutputs` | click/lib/lexer.cc:1526-1532 | Without a list `->` uses output 0 each time and `=>` outputs 0, 1, 2 and so on. |
| `Connections.MissingInputs` | click/lib/lexer.cc:1526-1532 | The same for inputs. |
| `Connections.AcceptedLists` | click/lib/lexer.cc:1520-1550 | For two elements: which lists are accepted with `->` and with `=>`, by their lengths and final -1. |
| `Connections.AcceptedCounts` | click/lib/lexer.cc:1520-1550 | For any number of elements without expandable lists: when `->` and `=>` are accepted, by the numbers of ports. |
| `Connections.PortsCounted` | click/lib/lexer.cc:1494-1508 | Ports and expandable lists are counted element by element. |
| `Connections.OneClosed` | click/lib/lexer.cc:1563-1566 | One element stands for the ports listed, or for port 0. |
| `Connections.FlatAppend` | click/lib/lexer.cc:1580-1584 | The ports of elements separated by commas follow each other. |
| `Connections.FlatExpands` | click/lib/lexer.cc:1568-1580 | Only the expandable list is padded. |
| `Connections.AnalyzePorts` | click/lib/lexer.cc:1494-1508 | The least number of ports and the number of expandable lists. |
| `Connections.Pair` | click/lib/lexer.cc:1552-1586 | The two-cursor loop emits the pairs of the two flattened lists. |
| `Connections.RestStep` | click/lib/lexer.cc:1563-1585 | One cursor step drops the first remaining port and nothing else. |
| `Connections.StepInList` | click/lib/lexer.cc:1568-1584 | Within one list the next port is the listed one, then consecutive numbers while there is padding left. |
| `Connections.EmittedZips` | click/lib/lexer.cc:1552-1586 | What the loop emits is the zip, whichever sides advance. |
| `Connections.FlatLength` | click/lib/lexer.cc:1494-1508 | A flattened side has its least number of ports plus its padding. |
| `Connections.SideLength` | click/lib/lexer.cc:1526-1538 | A side that may expand grows to the length of the other side. |
| `TypeTable.Lexer.AddElementType` | click/lib/lexer.cc:941-969 | The new type heads the chain under the first free id, or a new one if none is free; all other types are untouched, and chain and free list still partition the ids. |
| `TypeTable.Lexer.RemoveElementType` | click/lib/lexer.cc:1002-1042 | Succeeds exactly on live ids; the chain loses just that type, the name map falls back to the next older type of the name, and a right hint keeps its place. |
| `TypeTable.Lexer.Unlink` | click/lib/lexer.cc:1009-1041 | Chain, free list and name map agree again after one type is taken out. |
| `TypeTable.Lexer.FindPrev` | click/lib/lexer.cc:1009-1017 | The walk finds the link that leads to a live type. |
| `TypeTable.Lexer.FindOlder` | click/lib/lexer.cc:1019-1031 | The next older live type of the same name, or none. |
| `TypeTable.Lexer.LexicalScopingIn` | click/lib/lexer.cc:982-986 | The cookie is the newest type. |
| `TypeTable.Lexer.LexicalScopingOut` | click/lib/lexer.cc:988-999 | Exactly the scoped types newer than the cookie go; the rest stay in order. |
| `TypeTable.ScopeExactly` | click/lib/lexer.cc:988-999 | For every split of the chain into types added since the cookie and types before: leaving the scope removes the scoped ones of the former and nothing else if and only if no scoped type stands between the cookie's place and the split. |
| `TypeTable.ScopeRun` | click/lib/lexer.cc:941-1042 | For every run of adds and removes from taking the cookie to leaving: the final chain and types as the table before and the calls determine them; the scope is left right if and only if no scoped type stands between the cookie's place and the split, and always if no call removes the cookie's type. |
| `TypeTable.Do` | click/lib/lexer.cc:941-1042 | One add or remove does to the lexer what it does to the table: ids, order, free list and everything about live types but their links. |
| `TypeTable.RunKeepsCookie` | click/lib/lexer.cc:982-1042 | In a run that does not remove the cookie's type, that type stays the newest of those from before. |
| `TypeTable.LeftHeld` | click/lib/lexer.cc:988-999 | Leaving a scope depends on the table only up to its links. |
| `TypeTable.AddIds` | click/lib/lexer.cc:949-968 | Adding keeps chain and free list a partition of the ids. |
| `TypeTable.RemoveIds` | click/lib/lexer.cc:1009-1039 | Removing keeps chain and free list a partition of the ids. |
| `TypeTable.AddMap` | click/lib/lexer.cc:963-967 | After adding, each name maps to its newest live type. |
| `TypeTable.RemoveMap` | click/lib/lexer.cc:1019-1031 | After removing, each name maps to its newest live type. |
| `TypeTable.NewestWithout` | click/lib/lexer.cc:1019-1031 | Taking out a type changes the newest type of its own name only. |
| `TypeTable.ScopeOfCookie` | click/lib/lexer.cc:988-999 | The cookie's type still in place: exactly the scoped types added since go. |
| `TypeTable.StaleCookie` | click/lib/lexer.cc:982-1042 | The cookie's type removed and its id taken by a scoped type: that type survives the scope. |
| `TypeTable.DeadCookie` | click/lib/lexer.cc:982-1042 | The cookie's type removed and its id free: every scoped type goes, those from before too. |
| `TypeTable.DeadCookieLoses` | click/lib/lexer.cc:988-999 | A cookie nowhere in the chain leaves only unscoped types, so something is lost exactly if something is scoped. |
| `TypeTable.NothingLeft` | click/lib/lexer.cc:988-999 | Leaving a scope whose cookie is the newest type changes nothing. |
| `Sorting.QSort` | click/lib/glue.cc:552-666 | Every comparator gives a terminating run that permutes the range and never passes the stack's end, for every length a `size_t` can hold; a total preorder gives a sorted range. |
| `Sorting.SortTurn` | click/lib/glue.cc:568-665 | One turn keeps the stack bound and the permutation, and leaves the range sorted except for the pending ranges, of which there is less. |
| `Sorting.Med3` | click/lib/glue.cc:520-531 | One of the three for any comparator, a median for an order. |
| `Sorting.SortTiny` | click/lib/glue.cc:573-581 | Insertion sort: a permutation, sorted for an order. |
| `Sorting.InsertInto` | click/lib/glue.cc:576-579 | One element sinks to its place. |
| `Sorting.Partition` | click/lib/glue.cc:611-636 | The double scan stops for any comparator with pivot-equal elements at the ends, smaller and greater ones between, and the scans having met. |
| `Sorting.SwapBlocks` | click/lib/glue.cc:533-546 | Two blocks change places, everything else stays. |
| `Sorting.Gather` | click/lib/glue.cc:638-647 | Both block swaps bring the equal elements to the middle: less, equal, greater. |
| `Sorting.SplitRange` | click/lib/glue.cc:583-647 | Pivot choice to finished three-way split, with a non-empty middle. |
| `Sorting.PushParts` | click/lib/glue.cc:649-664 | The popped range is replaced by its parts, the bigger one below. |
| `Sorting.PartsPushed` | click/lib/glue.cc:649-664 | The range at depth d stays at most n/2^d, and the total left to sort shrinks. |
| `Sorting.DepthBound` | click/lib/glue.cc:652 | A range big enough to split leaves room for two more entries: the assertion cannot fail. |
| `Sorting.ReplaceTop` | click/lib/glue.cc:568-665 | Permuting one range and sorting it except for its parts keeps the whole sorted except for the pending ranges. |
| `Sorting.SplitLeavesEnds` | click/lib/glue.cc:638-651 | After a split only its two outer parts are unsorted. |
| `Strings.CompareIsOrder` | click/lib/ino.cc:76-82 | String comparison is a total preorder. |
| `Strings.CompareIs` | click/lib/ino.cc:76-82 | The order of two strings is that of the first characters that differ, a proper prefix coming first. |
| `Strings.CommonStart` | click/lib/ino.cc:76-82 | Any two strings have such a common beginning. |
| `Strings.CompareEqual` | click/lib/ino.cc:183-185 | Comparison gives zero exactly on equal strings. |
| `Ino.ClickIno.TruePrepare` | click/lib/ino.cc:84-175 | For every set of names: strictly sorted, exactly the names and their ancestors, each once, subtree sizes right modulo 2^16; sizes, inverse index and numbers are all right if and only if names and ancestors are at most 65535. |
| `Ino.ClickIno.NameSearch` | click/lib/ino.cc:178-192 | Found exactly if an entry of the range has that relative name. |
| `Ino.ClickIno.ElementNameSearch` | click/lib/ino.cc:194-200 | Finds directory/name exactly if the table has it anywhere. |
| `Ino.ClickIno.CountNames` | click/lib/ino.cc:223-232 | The skip-walk visits each direct child once and nothing else. |
| `Ino.ClickIno.Parent` | click/lib/ino.cc:304-312 | The search for the parent directory never fails. |
| `Ino.Grow` | click/lib/ino.cc:54-73 | Enough room, old entries kept. |
| `Ino.Fill` | click/lib/ino.cc:96-119 | One entry for each element, numbered in order modulo 2^16. |
| `Ino.SortEntries` | click/lib/ino.cc:121-122 | Strictly sorted, the same names and numbers. |
| `Ino.AddMissingFor` | click/lib/ino.cc:128-144 | Exactly the directories of one name that its predecessor does not share. |
| `Ino.AddMissing` | click/lib/ino.cc:124-145 | All missing directories are appended, each once. |
| `Ino.Build` | click/lib/ino.cc:113-149 | After the second sort: sorted, closed under ancestors, nothing extra, and as many entries as names and ancestors. |
| `Ino.CountSkip` | click/lib/ino.cc:154-162 | Stores the number of descendants modulo 2^16; the assertion on line 159 holds on the way. |
| `Ino.FillXindex` | click/lib/ino.cc:165-167 | Only index fields change, and they invert the numbering of a table that fits. |
| `Ino.Annotate` | click/lib/ino.cc:151-170 | The listing is right in any case, and the whole table if it has at most 65536 entries. |
| `Ino.TableFits` | click/include/click/ino.hh:61-80 | A right table has at most 65536 entries. |
| `Ino.RootLost` | click/lib/ino.cc:151-152 | With 65536 entries below the root its size is stored as 0, which is wrong. |
| `Ino.TooManyNames` | click/lib/ino.cc:113-119 | Distinct valid names whose table does not fit. |
| `Ino.ClosureSize` | click/lib/ino.cc:124-149 | The number of entries is the number of names and ancestors. |
| `Ino.TableEntry` | click/include/click/ino.hh:112-117 | Each number of a right table leads to an entry with the right subtree. |
| `InoNames.BetweenIsUnder` | click/lib/ino.cc:131-134 | Between a directory and something in it, sorted order has only things in it. |
| `InoNames.FakeMatchImpossible` | click/lib/ino.cc:131-135 | An earlier name that begins with a directory's text is that directory or lies in it. |
| `InoNames.SlashMeansUnder` | click/lib/ino.cc:157-159 | The assertion in the subtree count: a slash right after the directory's length means the directory is a prefix. |
| `InoNames.SubtreeEnds` | click/lib/ino.cc:151-163 | Where the walk stops the subtree ends. |
| `InoNames.ClosureComplete` | click/lib/ino.cc:124-145 | With the missing directories added, the names and their ancestors are there and nothing else. |
| `InoNames.AllMissingDistinct` | click/lib/ino.cc:124-145 | No directory is added twice. |
| `InoNames.MissingAreNew` | click/lib/ino.cc:135-143 | No added directory is already an element. |
| `Ino.SearchMeaning` | click/lib/ino.cc:194-200 | In a directory's range, having the relative name is having the joined name; outside, no entry has it. |
| `Ino.WalkMeetsChild` | click/lib/ino.cc:228-231 | The skip-walk stands on direct children only. |
| `Ino.WalkSkipsNone` | click/lib/ino.cc:228-231 | What the skip-walk jumps over is never a direct child. |
| `NameTree.NameInfo.Closest` | click/lib/nameinfo.cc:362-373 | The walk ends at the innermost installed database whose context is a prefix. |
| `NameTree.NameInfo.InstallNew` | click/lib/nameinfo.cc:381-405 | A new context is linked in and adopts exactly the children that extend it; the tree stays right. |
| `NameTree.NameInfo.InstallAgain` | click/lib/nameinfo.cc:435-446 | A second database for a context takes over its children. |
| `NameTree.NameInfo.Install` | click/lib/nameinfo.cc:431-446 | Any context may be installed any number of times. |
| `NameTree.NameInfo.QueryFrom` | click/lib/nameinfo.cc:500-505 | The parent walk gives the innermost binding, or none exactly if no applying database binds the name. |
| `NameTree.InstallAll` | click/lib/nameinfo.cc:431-446 | Every sequence of installs gives a right tree of exactly those databases. |
| `NameTree.Query` | click/lib/nameinfo.cc:412-510 | The element's context first, then the global databases; `NameTree.ContextIs` and `NameTree.AnswerIs` say what context and answer are. |
| `NameTree.ContextIs` | click/lib/nameinfo.cc:418-423 | An element's name is its context, empty or ending in a slash, and a name without slashes. |
| `NameTree.ContextUnique` | click/lib/nameinfo.cc:418-423 | The context of element `base` in compound `dir` is `dir/`. |
| `NameTree.AnswerIs` | click/lib/nameinfo.cc:495-510 | The answer comes from a database with a longest context that begins the context asked for, the one installed last among equals. |
| `NameTree.AnsweredInside` | click/lib/nameinfo.cc:412-510 | A database of compound `dir` that binds a name answers for every element in `dir`, with the binding installed last. |
| `NameTree.ChainOfInnermost` | click/lib/nameinfo.cc:496-510 | The parent chain lists exactly the databases whose contexts are prefixes, longest first and newest first among equals. |
| `NameTree.ChainScopes` | click/lib/nameinfo.cc:496-510 | A chain is a database and the scopes around it, inside out. |
| `NameTree.InnermostFound` | click/lib/nameinfo.cc:362-373 | If no child applies, nothing further in applies. |
| `NameTree.NewParent` | click/lib/nameinfo.cc:384-405 | After an install every old database still hangs below its innermost scope. |
| `NameTree.AdoptKids` | click/lib/nameinfo.cc:388-404 | Sibling lists stay proper lists of all children. |
| `NameDB.DynamicNameDB.Find` | click/lib/nameinfo.cc:188-220 | Found exactly if defined, sorted or not; creates exactly on demand with a name; a marker of 100 always means sorted, also when an empty table counted up to it. |
| `NameDB.DynamicNameDB.Sort` | click/lib/nameinfo.cc:222-255 | Names strictly sorted, values moved along with them, same contents. |
| `NameDB.DynamicNameDB.Query` | click/lib/nameinfo.cc:257-266 | Answers like the finite map, which stays the same. |
| `NameDB.DynamicNameDB.Define` | click/lib/nameinfo.cc:268-277 | Updates the finite map; refuses exactly the empty name. |
| `NameDB.DynamicNameDB.RevQuery` | click/lib/nameinfo.cc:280-288 | Some name with the value, the empty string exactly if there is none. |
| `NameDB.FindSorted` | click/lib/nameinfo.cc:194-205 | Binary search finds a name exactly if it is there. |
| `NameDB.FindAnywhere` | click/lib/nameinfo.cc:206-211 | Linear search finds a name exactly if it is there. |
| `NameDB.CopyRepresents` | click/lib/nameinfo.cc:241-253 | Copying names and values along a permutation keeps every binding. |
| `NameDB.PermutedSorted` | click/lib/nameinfo.cc:222-250 | Distinct names in the order of a sorted permutation are strictly increasing. |
| `NameDB.OverwriteRepresents` | click/lib/nameinfo.cc:272-274 | Writing one value in place changes one binding. |
| `NameDB.AppendRepresents` | click/lib/nameinfo.cc:213-217 | Appending an entry adds one binding. |
| `ConfParse.UnquoteQuote` | click/lib/confparse.cc:570-682 | Unquoting a quoted string gives it back, for every byte string and either newline setting. |
| `ConfParse.ArgvecUnargvec` | click/lib/confparse.cc:696-813 | Splitting the join of quoted items gives the items back, for every list. |
| `ConfParse.PartialUncomment` | click/lib/confparse.cc:374-423 | The scanning loop refines the step-by-step definition, whose result `Uncomment.KeptIs` gives for every text in terms of its pieces. |
| `Uncomment.KeptIs` | click/lib/confparse.cc:374-423 | For every text: if no piece breaks off, the pieces of text are left in order, with the spaces between two of them kept or one space if there was a comment, and nothing before or after; if one breaks off, all before the last comment between pieces of text, and a space, or nothing if there is no such comment. |
| `Uncomment.LostExactly` | click/lib/confparse.cc:374-423 | If a piece breaks off, nothing is left exactly if the text is not spoiled. |
| `Uncomment.AllLost` | click/lib/confparse.cc:374-423 | A text that begins with a word and of which nothing is left. |
| `Uncomment.TwiceIsOnce` | click/lib/confparse.cc:374-423 | From any start, with or without stopping at commas: uncommenting the result again changes nothing if and only if the text is not spoiled, a condition on the text alone. |
| `Uncomment.SpoiledExactly` | click/lib/confparse.cc:374-423 | The text is spoiled exactly if the last piece seems to end behind the text and something is left. |
| `Uncomment.SpoiledEnds` | click/lib/confparse.cc:269-307 | Only a text that ends with a comment just begun can be spoiled. |
| `Uncomment.Reads` | click/lib/confparse.cc:374-423 | A result that is not spoiled is read back whole where it stands, by itself or before a comma in a list. |
| `Uncomment.ReadsShort` | click/lib/confparse.cc:374-423 | A spoiled result ends with a space, and is read back without it. |
| `Uncomment.ArgvecAgain` | click/lib/confparse.cc:696-813 | Splitting, joining and splitting again: what comes out for every text, and that it is the same arguments if and only if the last is neither empty nor spoiled. |
| `Uncomment.ArgumentStable` | click/lib/confparse.cc:696-710 | Every argument of a list is stable under uncommenting, but for a spoiled one at the end. |
| `Uncomment.BrokenTwice` | click/lib/confparse.cc:374-423 | A spoiled text, with the space left over. |
| `Uncomment.Simulate` | click/lib/confparse.cc:387-414 | Scanning a result goes through the same pieces as scanning the text it came from. |
| `Uncomment.TextInside` | click/lib/confparse.cc:404-411 | Where a quoted or escaped piece ends depends on the piece and the character behind it only. |
| `ConfParse.Unquote` | click/lib/confparse.cc:570-615 | The loop that copies runs in one piece, and returns the string itself if it has no quote or escape, gives the character-by-character meaning: quote signs gone, escapes expanded where they count. |
| `ConfParse.Quote` | click/lib/confparse.cc:627-682 | Copying runs in one piece gives the byte-by-byte quotation. |
| `ConfParse.Argvec` | click/lib/confparse.cc:696-710 | The splitting loop refines the recursive definition, about which `Uncomment.ArgvecAgain` and `Uncomment.ArgumentStable` say what the arguments are. |
| `ConfParse.UnargvecLoop` | click/lib/confparse.cc:799-813 | The joining loop puts a comma and a space between items. |
| `ConfParse.EscapeOne` | click/lib/confparse.cc:476-558 | The escape written for a byte is read back as that byte. |
| `ConfParse.SkipBody` | click/lib/confparse.cc:319-333 | Skipping a quotation ends right after its closing quote. |
| `ConfParse.UnquoteBody` | click/lib/confparse.cc:577-612 | The quoted body expands to the item. |
| `ConfParse.ScanQuoted` | click/lib/confparse.cc:374-423 | One quoted item is taken whole, comments and commas inside it included. |
| `ConfParse.SplitFrom` | click/lib/confparse.cc:696-710 | Splitting proceeds item by item through a join. |
| `Escapes.SpacesAre` | click/lib/confparse.cc:361-371 | The six space characters. |
| `Escapes.CommentStarts` | click/lib/confparse.cc:298-299 | Only two slashes, or a slash and a star, begin a comment. |
| `Escapes.StarComment` | click/lib/confparse.cc:280-284 | A comment ends with the first star and slash behind its beginning. |
| `Escapes.LineComment` | click/lib/confparse.cc:274-279 | A comment from two slashes ends with its line, newline, carriage return or both included. |
| `Escapes.SingleQuoteIs` | click/lib/confparse.cc:335-345 | A quotation in single quotes ends at the next single quote. |
| `Escapes.SingleQuoteOpen` | click/lib/confparse.cc:335-345 | Without one it ends with the text. |
| `Escapes.DoubleQuoteIs` | click/lib/confparse.cc:319-333 | A quotation in double quotes ends at the next one that no backslash precedes. |
| `Escapes.PlainPiece` | click/lib/confparse.cc:401-411 | Outside quotations a character is a piece by itself, but for a backslash and an angle bracket. |
| `Escapes.LetterEscapes` | click/lib/confparse.cc:476-504 | What a backslash and a letter, a newline or another character stand for, by their codes. |
| `Escapes.LineContinued` | click/lib/confparse.cc:484-490 | A backslash joins lines, whatever their end. |
| `Escapes.OctalEscape` | click/lib/confparse.cc:499-509 | One to three octal digits. |
| `Escapes.HexEscape` | click/lib/confparse.cc:511-525 | Any number of hexadecimal digits in either case, of which the last two count. |
| `Escapes.AngleEscape` | click/lib/confparse.cc:527-552 | Two hexadecimal digits for each byte, the high one first, in either case, with blanks and comments anywhere. |
| `Escapes.AngleRead` | click/lib/confparse.cc:527-552 | The scan of such a string from any place in it, with or without a digit pending. |
| `Escapes.UnquoteAngle` | click/lib/confparse.cc:570-615 | Unquoting such a string gives the bytes. |
| `Escapes.UnquoteSingle` | click/lib/confparse.cc:570-615 | Between single quotes every character stands for itself. |
| `Escapes.Letter` | click/lib/confparse.cc:470-475 | `\<4 8>` is the letter H. |
| `Escapes.MeaningPlain` | click/lib/confparse.cc:577-612 | Text without quotes and without `\<` stands for itself, other backslashes included. |
| `Escapes.QuotedByte` | click/lib/confparse.cc:640-670 | How each byte is quoted. |
| `Escapes.QuotedOctal` | click/lib/confparse.cc:640-670 | Unprintable bytes are three octal digits. |
| `Escapes.QuotedPrintable` | click/lib/confparse.cc:627-682 | A quoted text is printable, but for the newlines that are allowed. |
| `Escapes.DollarQuoted` | click/lib/confparse.cc:627-682 | A dollar sign or double quote in it follows a backslash. |
| `Escapes.JoinedItems` | click/lib/confparse.cc:799-813 | Items are joined with a comma and a space. |
| `IP4Text.RoundTrip4` | click/lib/ipaddress.cc:119-171 | Parsing a printed IPv4 address gives it back, whatever the name service. |
| `IP4Text.BasicParse4` | click/lib/ipaddress.cc:131-153 | The two nested loops refine the recursive scanner, whose accepted texts are known exactly. |
| `IP4Text.AcceptsQuad` | click/lib/ipaddress.cc:131-153 | A text is read whole with four bytes exactly if it is four decimal numbers up to 255 with dots between them, and these are the bytes. |
| `IP4Text.DigitsAre` | click/lib/ipaddress.cc:131-153 | The ten digits and their values, and no other character. |
| `IP4Text.ThreeDigits` | click/lib/ipaddress.cc:140-146 | Hundreds, tens and ones are read in that order. |
| `IP4Text.DecimalIs` | click/lib/ipaddress.cc:119-124 | A number is written with its last digit behind the others. |
| `IP4Text.Text4Is` | click/lib/ipaddress.cc:119-124 | The bytes are written in order with dots between them. |
| `IP4Text.Parse4Exactly` | click/lib/ipaddress.cc:155-171 | Without names, exactly these texts parse. |
| `IP6Text.RoundTrip6` | click/lib/ip6address.cc:119-158 | Parsing the text of any address reads all of it and gives the address back, dotted forms included. |
| `IP6Text.Unparse` | click/lib/ip6address.cc:119-158 | The text is that of RFC 5952 with its first longest zero run of at least two groups compressed, or one of the dotted forms. |
| `IP6Text.LongestRun` | click/lib/ip6address.cc:141-150 | A longest zero run, the first of its length (sections 4.2.2 and 4.2.3 of RFC 5952). |
| `IP6Text.BasicParse6` | click/lib/ip6address.cc:327-393 | The whole parser refines its step function, whose accepted texts, suffixes included, and writes behind the groups are known exactly. |
| `IP6Text.ScanLoop` | click/lib/ip6address.cc:330-361 | The scanning loop with its in-place groups refines the step function. |
| `IP6Text.Step` | click/lib/ip6address.cc:335-361 | One turn keeps the indexes in range; only a digit in a ninth group spills, and the ninth group takes `::` behind seven groups. |
| `IP6Text.ExpandInPlace` | click/lib/ip6address.cc:382-392 | The groups behind `::` end up last, zeros before them. |
| `IP6Text.BackToColon` | click/lib/ip6address.cc:368-370 | The colon before the suffix. |
| `IP6Text.CompressedText` | click/lib/ip6address.cc:152-157 | The round trip for a compressed text, wherever the run is. |
| `IP6Text.PlainText` | click/lib/ip6address.cc:152-157 | The round trip for eight groups. |
| `IP6Text.CompatibleText` | click/lib/ip6address.cc:132-134 | The round trip for `::a.b.c.d`. |
| `IP6Text.MappedText` | click/lib/ip6address.cc:135-137 | The round trip for `::ffff:a.b.c.d`. |
| `IP6Text.ScanJoined` | click/lib/ip6address.cc:335-361 | Scanning groups with colons between them stores exactly the groups. |
| `IP6Text.HexRoundTrip` | click/lib/ip6address.cc:157 | A printed group is read back. |
| `IP6Text.HexDigitsAre` | click/lib/ip6address.cc:337-342 | The hexadecimal digits in both cases and their values. |
| `IP6Text.HexDigitsOnly` | click/lib/ip6address.cc:337-342 | No other character is one. |
| `IP6Text.FourHexDigits` | click/lib/ip6address.cc:360-361 | A group counts its digits from the first down. |
| `IP6Text.ParsedCase` | click/lib/ip6address.cc:328-393 | Changing the case of letters changes neither where parsing stops nor the value, for every text and every name service that does not look at case. |
| `IP6Text.ScanCase` | click/lib/ip6address.cc:336-362 | The scanning loop does not look at case. |
| `IP6Forms.SpillsExactly` | click/lib/ip6address.cc:327-393 | The parser writes behind its groups if and only if the text is seven groups, `::` and a digit, or six groups, `::`, perhaps a third colon, and something that resolves to IPv4. |
| `IP6Suffix.ParsesExactly` | click/lib/ip6address.cc:327-393 | For every text and every name service, the whole text is read with a given value if and only if it is eight groups or up to seven around one `::` that spell it, or such groups with a suffix that resolves to IPv4 (behind six groups, `::`, three colons, groups behind `::`, or a last colon), or is empty. |
| `IP6Suffix.EndSuffix` | click/lib/ip6address.cc:366-392 | A text read to its end by its suffix has one of the suffix forms. |
| `IP6Suffix.SuffixAccepted` | click/lib/ip6address.cc:366-392 | Every suffix form is read to its end with its value. |
| `IP6Suffix.SuffixValue` | click/lib/ip6address.cc:374-391 | The suffix becomes the last two groups and the zeros go where `::` was. |
| `IP6Forms.WholeAccepted` | click/lib/ip6address.cc:327-393 | Every text of groups, in any case and with leading zeros, is read whole with its value, whatever the name service. |
| `IP6Forms.ScanEnds` | click/lib/ip6address.cc:335-361 | What the scanner has stored when it stops is what the text before that place spells. |
| `IP6Forms.ScanRead` | click/lib/ip6address.cc:335-361 | Groups of one to four digits are stored with their values. |
| `IP6Forms.StepReached` | click/lib/ip6address.cc:335-361 | One turn keeps the agreement of variables and text. |
| `IP6Forms.SevenThenDigit` | click/lib/ip6address.cc:343-360 | Printed groups: seven, `::` and a digit spill. |
| `IP6Forms.SixThenName` | click/lib/ip6address.cc:366-380 | Printed groups: six, `::` and a known name spill. |
| `IP6Forms.SixThenDotted` | click/lib/ip6address.cc:366-380 | Printed groups: six, three colons and an IPv4 address spill, whatever the name service. |
| `IP6Forms.FailureIsBeginning` | click/lib/ip6address.cc:382-383 | A failed parse stops at the beginning, which is the end exactly if the text is empty. |
| `IP6Forms.EmptyAccepted` | click/lib/ip6address.cc:382-383 | The empty text fails and yet is accepted, as the address of all ones. |
| `IP6Forms.Example` | click/lib/ip6address.cc:328-393 | `2001:DB8::1` and its eight groups, whatever the name service. |
| `SelectSet.SelectSet.AddSelect` | click/lib/selectset.cc:197-246 | Succeeds exactly if no other element waits for the same events; registers exactly those; the arrays stay inverse, each descriptor listed once, events matching registrations. |
| `SelectSet.SelectSet.RemoveSelect` | click/lib/selectset.cc:300-327 | Removes exactly the element's own registrations among those asked for. |
| `SelectSet.SelectSet.KillRouter` | click/lib/selectset.cc:108-126 | Removes every registration of the router and no other, although removal moves entries during the scan. |
| `SelectSet.SelectSet.KillAt` | click/lib/selectset.cc:113-121 | One place of the list: its descriptor is clean afterwards, and the list is unchanged or has its last entry there. |
| `SelectSet.SelectSet.RemovePollfd` | click/lib/selectset.cc:248-298 | One event goes; the entry goes if none is left; descriptor sets and maximum follow. |
| `SelectSet.SelectSet.DropPollfd` | click/lib/selectset.cc:283-288 | The last entry fills the gap, both directions of the index follow. |
| `SelectSet.SelectSet.FindTop` | click/lib/selectset.cc:290-296 | The largest descriptor that fits in a set. |
| `SelectSet.SelectSet.RegisterSelect` | click/lib/selectset.cc:128-195 | The descriptor is listed once with the new events added; registrations are untouched. |
| `SelectSet.SelectSet.ListDescriptor` | click/lib/selectset.cc:131-140 | The descriptor is listed, and what is watched and registered stays. |
| `SelectSet.SelectSet.Initialize` | click/lib/selectset.cc:95-106 | The wake pipe is watched for reading, once. |
| `SelectSet.ListedOnce` | click/lib/selectset.cc:131-140 | No descriptor is listed twice. |
| `SelectSet.DropLinks` | click/lib/selectset.cc:283-288 | Swap-with-last keeps the arrays inverse, also when the dropped entry is the last. |
| `SelectSet.DropMeaning` | click/lib/selectset.cc:283-288 | Dropping an entry changes what is watched for its descriptor only. |
| `SelectSet.StaysClean` | click/lib/selectset.cc:112-124 | Staying put after a swap leaves no entry unvisited, and the scan ends. |
| `SelectSet.AllClean` | click/lib/selectset.cc:108-126 | When every entry is clean no registration of the router is left anywhere. |
| `SelectSet.KeepTop` | click/lib/selectset.cc:173-179 | The maximum stays right when one descriptor comes or goes. |
| `Md5.State.Append` | click/lib/md5.cc:329-365 | However a message is cut up, the state depends on the concatenation only: fold over whole blocks, rest in the buffer, bit count modulo 2^64. |
| `Md5.State.FullBlocks` | click/lib/md5.cc:358-365 | Whole blocks from the data and the rest in the buffer give the fold over everything. |
| `Md5.State.Finish` | click/lib/md5.cc:367-388 | The digest is the compression function folded over the message padded as in sections 3.1 and 3.2 of RFC 1321. |
| `Md5.State.AddLength` | click/lib/md5.cc:340-344 | Two 32-bit words count bits modulo 2^64, carry included. |
| `Md5.WordBytes` | click/lib/md5.cc:379-387 | Words are written low-order byte first. |
| `Md5.CopyFits` | click/lib/md5.cc:347-352 | The copy stays in the buffer exactly if the length test does not overflow an `int`. |
| `Md5.CountsAdd` | click/lib/md5.cc:340-344 | The carry rule is right for every count and length. |
| `Md5.CountsOffset` | click/lib/md5.cc:334 | The offset in the buffer can be read off the low count word. |
| `Md5.ZeroFillLength` | click/lib/md5.cc:382-383 | Padding to 56 modulo 64 takes the number of bytes the code computes. |
| `Md5.PaddedIs` | click/lib/md5.cc:370-385 | Pad bytes and length bytes make up the padding of RFC 1321. |
| `Md5.LengthBytes` | click/lib/md5.cc:379-381 | The saved length is the 64-bit count, low-order byte first. |
| `Md5.DigestBytes` | click/lib/md5.cc:386-388 | The digest is the words A to D, each with its low-order byte first. |
| `Md5.InitialBytes` | click/lib/md5.cc:318-326 | The state begins as in section 3.3 of RFC 1321. |
| `Md5.PaddedShape` | click/lib/md5.cc:370-385 | The message, one byte 80, the fewest zeros that make whole blocks, and eight bytes of length. |
| `Md5.LengthIs` | click/lib/md5.cc:379-381 | The bytes of the length make up the number, the first counting least. |
| `Cksum.InCksum` | click/lib/in_cksum.c:20-51 | For either byte order the result is the RFC 1071 checksum as that machine reads it, exactly if the words add up to less than 2^32; always up to 131074 bytes. |
| `Cksum.NetworkWordsAre` | click/lib/in_cksum.c:33-42 | Pairs of bytes are words with the first byte in front; a last byte alone has a zero behind it. |
| `Cksum.TwoWordChecksum` | click/lib/in_cksum.c:20-51 | The checksum of up to two words, with the carry put back in. |
| `Cksum.ExampleSum` | click/lib/in_cksum.c:20-51 | The example of section 3 of RFC 1071. |
| `Cksum.HostOrder` | click/lib/in_cksum.c:33-42 | How the two kinds of machine see a word in network order. |
| `Cksum.NoOverflow` | click/lib/in_cksum.c:33-42 | Up to 131074 bytes the accumulator does not overflow. |
| `Cksum.OverflowBeyond` | click/lib/in_cksum.c:33-42 | 131075 bytes of ones overflow it. |
| `Cksum.ByteOrderIndependence` | click/lib/in_cksum.c:20-51 | Section 2(B) of RFC 1071: swapping the bytes of every word swaps those of the sum. |
| `Cksum.OnesSumReduced` | click/lib/in_cksum.c:28-47 | The one's-complement sum is the ordinary sum with its carries folded in at the end. |
| `Cksum.FoldReduces` | click/lib/in_cksum.c:44-47 | Two foldings suffice for every 32-bit sum. |
| `Cksum.WrapShows` | click/lib/in_cksum.c:33-42 | A dropped carry always changes the result. |
| `Cksum.PseudohdrRaw` | click/lib/in_cksum.c:53-80 | The complement of the folded sum of checksum, addresses, length and protocol. |
| `Cksum.PseudoChecksum` | click/lib/in_cksum.c:53-80 | The checksum of a payload carried through the pseudo-header function is the checksum of pseudo-header (section 3.1 of RFC 9293) and payload. |
| `Cksum.PseudoHeaderIs` | click/lib/in_cksum.c:53-80 | The twelve bytes of a pseudo-header. |
| `Cksum.ChecksumVerifies` | click/lib/in_cksum.c:20-51 | A message that carries its checksum sums to all ones. |
| `Integers.IntSqrt` | click/lib/integers.cc:175-198 | For every 32-bit x and either first estimate, r*r <= x < (r+1)*(r+1). |
| `Integers.Newton` | click/lib/integers.cc:189-192 | The loop ends at or just above the root, and no sum leaves 32 bits. |
| `Integers.FfsMsb` | click/lib/integers.cc:27-54 | The place of the highest set bit, 0 for zero. |
| `Integers.StepHigh` | click/lib/integers.cc:189-192 | A Newton step never goes below the root. |
| `Integers.SumFits` | click/lib/integers.cc:178-192 | The sum in a step fits into 32 bits below the special case. |
| `Integers.StepStops` | click/lib/integers.cc:189-192 | A step that does not decrease started at the root. |
| `Integers.StepFromRoot` | click/lib/integers.cc:189-197 | From the root a step overshoots by at most one, and its square fits. |
| `Integers.ShiftEstimate` | click/lib/integers.cc:183-188 | The shifted first estimate is not below the root. |
| `Classifier.Classifier.Push` | classifier.cc:384-562 | In every run each packet leaves on exactly the output its history calls for, and every field is what the history says: bits of each second, their maximum, profile, slow-packet count, period start, both counters, flagged pairs in either order. Of each single push, in terms of bits and fields: a second is entered as 2 for at least 11 megabits more than the second before, as 0 for at least one and less than ten megabits less, and else as 1; and what all fields and the output are after it. |
| `Classifier.TurnOf` | classifier.cc:384-562 | The history gives the new fields and the output in terms of the old fields, with every threshold as a number. |
| `Classifier.ClassifyIs` | classifier.cc:424-437 | What a second is entered as, by the bits of it and the second before. |
| `Classifier.Classifier.Take` | classifier.cc:384-562 | The body of a push, against the history. |
| `Classifier.Classifier.Observe` | classifier.cc:387-449 | Traffic, maximum, profile and slow-packet count take the packet in. |
| `Classifier.Classifier.Count` | classifier.cc:415-421 | The packet's bits go to its second; the maximum follows. |
| `Classifier.Classifier.Track` | classifier.cc:423-439 | The second is entered as less, same or more, a first burst starting the profile anew. |
| `Classifier.Classifier.Judge` | classifier.cc:477-562 | Reset if the period is over, then flagged pairs, hellos, known profiles, the rest. |
| `Classifier.Classifier.ResetIfOver` | classifier.cc:477-490 | A new period exactly if the old one has expired, with nothing carried over. |
| `Classifier.Classifier.LookUp` | classifier.cc:492 | True exactly if a packet between the two addresses was flagged since the last reset. |
| `Classifier.Classifier.FlagPair` | classifier.cc:530-556 | Both keys are flagged, the period starts unless it has, and the packet is counted. |
| `Classifier.Classifier.PassFlagged` | classifier.cc:492-496 | A flagged pair's packet is counted as unthrottled. |
| `Classifier.Classifier.Throttle` | classifier.cc:559-562 | Any other packet is counted as throttled. |
| `Classifier.Classifier.CountersMatch` | classifier.cc:477-562 | The two counters add up to the packets since the last reset. |
| `Classifier.StaysFlagged` | classifier.cc:466-496 | After a pair is flagged, its TCP and UDP packets other than DNS take the second output until a reset, unless the slow-packet count exceeds 115. |
| `Classifier.KeyInjective` | classifier.cc:400-413 | Different address pairs have different string keys. |
| `Classifier.FlagsSet` | classifier.cc:531-534 | Setting the two keys flags that pair, in both orders, and no other. |
| `Classifier.FlaggedEitherWay` | classifier.cc:492 | The flagged relation is symmetric. |
| `Classifier.ExtendLargest` | classifier.cc:415-421 | The recorded maximum is the largest total of any second. |
| `Classifier.GetIpString` | classifier.cc:564-575 | Numbers with dots between them. |
| `Classifier.CurrentBehavior` | classifier.cc:623-630 | The profile's entries in order of time. |
| `Classifier.ProfileInOrder` | classifier.cc:623-630 | Earlier seconds come first. |
| `Classifier.ProfileOne` | classifier.cc:623-630 | One second is one digit. |

## Left out

- Flattening.FlattenRouter: the names behind the element numbers; a compound whose name is taken by a real element is not declared at all.
- Flattening.Lexer.FlattenConnections: which routes through tunnel cycles are connected is given by the order of the walk, and stated without it one way only (`Flattening.RouteAssured`); the sort and renumbering before connections are added to the router are left out.
- Ino.ClickIno.TruePrepare: `int` counters are unbounded; the precondition is that a `size_t` can count the names and their ancestors.
- NameTree.NameInfo.Install: one database type, with values as a finite map from names; the search over types and the value sizes are left out.
- NameDB.DynamicNameDB.Find: the bytes of a new entry, unset in the source until they are written, are zeros.
- TypeTable.Lexer.RemoveElementType: the element types' factory pointers are numbers and their landmarks are left out.
- Connections.ConnectAll: the flat integer vectors are sequences of groups; what is connected after an error is left out.
- Md5.State.Append: required not to overflow the length test, which is the exact condition for staying in the buffer; the compression function is a parameter.
- IP6Text.BasicParse6: a write behind the eighth group ends the run with `Spilled`; what the source does after such a write is not modelled. Host and network order of the groups do not appear.
- SelectSet.SelectSet.RegisterSelect: the kqueue calls and the select() warning are left out; locks, waking and the select loop too.
- Classifier.Classifier.Push: counters and bit sums are unbounded and exact where the source uses `int` and `long double`; one element instead of all that share the static table of flagged pairs; statistics files and printing are left out.
- Cksum.PseudohdrRaw: the portable branch only.
- Sorting.QSort: elements move as units, so the word and byte variants of swapping are one.
- The lexer's parse states, compound variable expansion, library loading and the save and restore of the type map around compounds.
- `NameInfo::uninstalldb`: its unlink loop does not advance, so the tree survives only if the node heads its list.
- `in6_fast_cksum`, the 64-bit `int_sqrt`, `cp_real2`, fixed-point and multi-limb integer arguments.
- The Classifier pattern program, packet byte reads and the TLS substring search.
- Error messages, allocation failure, threads, drivers, kernel code, handlers, and the Python and JavaScript scripts.
