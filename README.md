# Friendship graph and registration validators, in Dafny

This project models the core of a university social network. Students are
vertices of an undirected friendship graph. The graph answers queries about
friends, mutual friends, friend suggestions (friends of friends, found by a
breadth-first search bounded by a hop count), the shortest chain of
friendships between two students, and summary statistics. Beside it are the
general containers the graph module ships (a FIFO queue, a LIFO stack and a
singly linked list) and the validators of the registration form
(institutional e-mail, duplicate e-mail, password strength, student id).

Layout:

- `wrappers.dfy`: `Option`, standing for the source's `undefined`/`null` results.
- `graph_spec.dfy` (module `GraphSpec`): the graph as a value (`map<string, set<string>>`). It holds:
  - the three mutations as functions;
  - walks, and `Within(g, s, n)` (the users at most `n` friendships away);
  - `Suggestions`, which specifies the suggestion search;
  - the degree sum;
  - the lemmas about all of these.
- `friendship_graph.dfy` (module `Friendship`): the `FriendshipGraph` class.
  - Its field `adj` is the adjacency map, which its methods update in place.
  - Its two breadth-first searches are loops over a `WorkQueues.Queue`, as in the source.
  - Each search is proved against `GraphSpec`, with proof-only hop counts kept in ghost variables.
- `work_queues.dfy` (module `WorkQueues`): `Queue` and `Stack` over one `items` sequence.
- `linked_list.dfy` (module `LinkedLists`): heap-allocated `ListNode`s.
  - `append`, `prepend` and `remove` relink the nodes in place.
  - The list is specified by a ghost sequence of its nodes and of their data.
- `validation.dfy` (module `Validation`): the four validators as pure functions.
  - Each regular expression is a scanner over the characters.
  - Each scanner is proved equal to a character-level description of the strings it accepts.

Self-friendships:

- An undirected friendship graph is normally free of self-friendships, but nothing in `addFriendship` stops `userId1 == userId2`, and the call then records a self-friendship. The model follows the code: `GraphSpec.WithEdge` allows it too.
- For that reason, the evenness of the degree sum is proved only for graphs without self-friendships (`GraphSpec.DegreeSumEven`).
- `GraphSpec.SelfFriendshipOddSum` shows that one self-friendship makes `totalConnections` come out as a half.

## Model

| member | source | states |
|---|---|---|
| Friendship.FriendshipGraph.constructor | src/utils/graphDataStructures.ts:268-271 | a new graph has no users, and is symmetric |
| Friendship.FriendshipGraph.AddUser | src/utils/graphDataStructures.ts:277-281 | the new map is `WithUser(old, u)`: a known user keeps their friends, a new one gets none; friendship stays recorded on both sides |
| GraphSpec.WithUser | src/utils/graphDataStructures.ts:277-281 | the users become the old users plus `u`; every old friend set is kept; `u`'s friend set is its old one or empty |
| GraphSpec.WithUserIdempotent | src/utils/graphDataStructures.ts:277-281 | adding an existing user changes nothing, and adding a user twice equals adding them once |
| Friendship.FriendshipGraph.AddFriendship | src/utils/graphDataStructures.ts:289-297 | the new map is `WithEdge(old, a, b)`; afterwards `b` is in `a`'s set and `a` in `b`'s; every other user's friends are unchanged; symmetry is kept |
| GraphSpec.WithEdge | src/utils/graphDataStructures.ts:289-297 | the users become the old users plus `a` and `b`; each user's set is its old set plus `b` when it is `a`, plus `a` when it is `b` |
| GraphSpec.WithEdgePreservesSymmetry | src/utils/graphDataStructures.ts:289-297 | adding a friendship keeps every friendship recorded on both sides |
| GraphSpec.WithEdgeIdempotent | src/utils/graphDataStructures.ts:289-297 | repeating `addFriendship` changes no friend set and so no degree |
| Friendship.FriendshipGraph.RemoveFriendship | src/utils/graphDataStructures.ts:304-311 | the new map is `WithoutEdge(old, a, b)`: the users are unchanged, neither side is a friend of the other afterwards, and symmetry is kept |
| GraphSpec.WithoutEdge | src/utils/graphDataStructures.ts:304-311 | no user is created or removed; each user's set loses `b` when it is `a` and `a` when it is `b` |
| GraphSpec.WithoutEdgePreservesSymmetry | src/utils/graphDataStructures.ts:304-311 | removing a friendship keeps the graph symmetric |
| GraphSpec.WithoutEdgeUndoesWithEdge | src/utils/graphDataStructures.ts:289-311 | removing a friendship that was just added restores every friend set; only the users that the addition created remain, with no friends |
| Friendship.FriendshipGraph.GetFriends | src/utils/graphDataStructures.ts:318-323 | the result holds exactly the user's friends, each once; it is empty for an unknown user |
| Friendship.ToSequence | src/utils/graphDataStructures.ts:322 | `Array.from` of a set holds every member exactly once and nothing else |
| Friendship.FriendshipGraph.AreFriends | src/utils/graphDataStructures.ts:331-336 | true iff `b` is among `a`'s friends, which by symmetry holds iff `a` is among `b`'s; false for an unknown user |
| Friendship.FriendshipGraph.GetMutualFriends | src/utils/graphDataStructures.ts:345-358 | the result holds exactly the users that are friends of both, each once; it is empty when either user is unknown |
| Friendship.FriendshipGraph.GetSuggestedFriends | src/utils/graphDataStructures.ts:367-405 | the result holds, each once, exactly `Suggestions(adj, u, maxDistance)`: the users 2 to `maxDistance` friendships away. It never holds `u` or a friend of `u`, and it is empty for an unknown user |
| Friendship.VisitFriends | src/utils/graphDataStructures.ts:385-401 | the inner loop of the suggestion search marks every friend of the dequeued user as visited and keeps the search invariant |
| Friendship.VisitFriend | src/utils/graphDataStructures.ts:386-400 | a visited friend changes nothing. An unvisited one is marked visited and labelled one hop beyond the current user; it is added to the suggestions exactly when that count is between 2 and `maxDistance`, and appended to the queue with that count exactly when it is below `maxDistance`. The search invariant is kept |
| GraphSpec.SuggestionsFound | src/utils/graphDataStructures.ts:367-405 | once the bounded search has run dry, the suggestion set equals `Suggestions` |
| GraphSpec.SuggestionsExcludeSelfAndFriends | src/utils/graphDataStructures.ts:386-394 | a suggestion is never the user and never one of the user's friends |
| GraphSpec.SuggestionsWithinBounds | src/utils/graphDataStructures.ts:389-399 | every suggestion ends a walk of 2 to `maxDistance` friendships from the user, so `maxDistance >= 2` whenever there is one |
| Friendship.FriendshipGraph.GetShortestPath | src/utils/graphDataStructures.ts:413-450 | the result is empty for an unknown user. A non-empty result is a chain of friendships from start to end, through distinct users, no longer than any other such chain. An empty result for two known users means no chain exists. From a user to themselves the result is `[s]` |
| Friendship.ExploreFriends | src/utils/graphDataStructures.ts:440-446 | every friend of the dequeued user ends up visited, and the search invariant is kept |
| Friendship.ExploreFriend | src/utils/graphDataStructures.ts:441-445 | a visited friend changes nothing. An unvisited one is marked visited, gets the current user as its parent, and is appended to the queue. The search invariant is kept |
| Friendship.FoundPath | src/utils/graphDataStructures.ts:428-437 | once the end user is dequeued, following the parents back yields a shortest chain from start to end |
| Friendship.ReconstructPath | src/utils/graphDataStructures.ts:430-435 | the parent walk yields a chain from start to end with one user per hop count, so its length is the end's hop count plus one and its users are distinct |
| GraphSpec.NoShorterWalk | src/utils/graphDataStructures.ts:413-450 | a user outside the first `k` hop bounds ends no chain of fewer than `k` friendships |
| GraphSpec.Unreachable | src/utils/graphDataStructures.ts:449 | a user that no search bound reaches ends no chain at all |
| GraphSpec.WalkWithin | src/utils/graphDataStructures.ts:413-450 | the last user of a chain of `n` friendships is within `n` hops of the first |
| GraphSpec.WithinHasWalk | src/utils/graphDataStructures.ts:413-450 | conversely, a user within `n` hops ends a chain of at most `n` friendships |
| GraphSpec.WithinCovered | src/utils/graphDataStructures.ts:367-450 | a breadth-first search with hop labels and all labels below the bound expanded has found every user within that bound |
| Friendship.FriendshipGraph.GetDegree | src/utils/graphDataStructures.ts:457-462 | the number of the user's friends, 0 for an unknown user; by symmetry, also the number of users listing them as a friend |
| Friendship.FriendshipGraph.GetStats | src/utils/graphDataStructures.ts:467-489 | `totalUsers` is the number of users; `totalConnections` is half the degree sum, and a whole number when nobody is their own friend; `averageFriends` is the degree sum over the number of users, or 0 when there are none |
| Friendship.Summarise | src/utils/graphDataStructures.ts:478-488 | halving the degree sum and doubling it back over the user count gives `totalConnections * 2 == degreeSum` and `averageFriends == degreeSum / totalUsers` |
| GraphSpec.DegreeSumRemove | src/utils/graphDataStructures.ts:474-476 | the degree sum can be taken starting from any user, so the `forEach` order does not matter |
| GraphSpec.DegreeSumUpdate | src/utils/graphDataStructures.ts:474-476 | replacing one friend set changes the sum by the difference of the sizes |
| GraphSpec.DegreeSumEven | src/utils/graphDataStructures.ts:478-479 | in a symmetric graph without self-friendships the degree sum is even, so halving it counts friendships |
| GraphSpec.SelfFriendshipOddSum | src/utils/graphDataStructures.ts:289-297 | `addFriendship(a, a)` on an empty graph gives `a` itself as its only friend and a degree sum of 1 |
| WorkQueues.Queue.constructor | src/utils/graphDataStructures.ts:146-148 | a new queue is empty |
| WorkQueues.Queue.Enqueue | src/utils/graphDataStructures.ts:154-156 | the element is appended at the back |
| WorkQueues.Queue.Dequeue | src/utils/graphDataStructures.ts:162-164 | returns and removes the front element; `None` with nothing changed when the queue is empty |
| WorkQueues.Queue.Peek | src/utils/graphDataStructures.ts:169-171 | the front element, `None` iff empty |
| WorkQueues.Queue.IsEmpty | src/utils/graphDataStructures.ts:176-178 | true iff there are no elements |
| WorkQueues.Queue.Size | src/utils/graphDataStructures.ts:183-185 | the number of elements |
| WorkQueues.Queue.Clear | src/utils/graphDataStructures.ts:190-192 | afterwards the queue is empty |
| WorkQueues.Stack.constructor | src/utils/graphDataStructures.ts:205-207 | a new stack is empty |
| WorkQueues.Stack.Push | src/utils/graphDataStructures.ts:213-215 | the element becomes the top |
| WorkQueues.Stack.Pop | src/utils/graphDataStructures.ts:221-223 | returns and removes the top element; `None` with nothing changed when the stack is empty |
| WorkQueues.Stack.Peek | src/utils/graphDataStructures.ts:228-230 | the top element, `None` iff empty |
| WorkQueues.Stack.IsEmpty | src/utils/graphDataStructures.ts:235-237 | true iff there are no elements |
| WorkQueues.Stack.Size | src/utils/graphDataStructures.ts:242-244 | the number of elements |
| WorkQueues.Stack.Clear | src/utils/graphDataStructures.ts:249-251 | afterwards the stack is empty |
| LinkedLists.ListNode.constructor | src/utils/graphDataStructures.ts:25-28 | a new node holds the given data and has no successor |
| LinkedLists.LinkedList.constructor | src/utils/graphDataStructures.ts:40-43 | a new list is empty and well formed |
| LinkedLists.LinkedList.Append | src/utils/graphDataStructures.ts:49-61 | walking to the last node and linking a new one after it appends the element; the node chain stays acyclic and `size` stays equal to the length |
| LinkedLists.LinkedList.Prepend | src/utils/graphDataStructures.ts:68-72 | the element becomes the first |
| LinkedLists.LinkedList.Remove | src/utils/graphDataStructures.ts:79-98 | returns true iff the element occurs; the new contents are the old ones without the first occurrence; nothing changes when it does not occur |
| LinkedLists.LinkedList.Unlink | src/utils/graphDataStructures.ts:90-92 | bypassing the successor of the node at `k` removes exactly element `k + 1` and decrements `size` |
| LinkedLists.RemoveFirstCounts | src/utils/graphDataStructures.ts:79-98 | a successful `remove` deletes exactly one copy of the element (length minus one, multiset minus one); an unsuccessful one deletes nothing |
| LinkedLists.RemoveFirstAt | src/utils/graphDataStructures.ts:88-96 | removing the first occurrence, at index `k`, splices the contents around `k` |
| LinkedLists.LinkedList.Find | src/utils/graphDataStructures.ts:104-113 | `None` iff no element satisfies the predicate; otherwise the first element that does |
| LinkedLists.LinkedList.ToArray | src/utils/graphDataStructures.ts:118-126 | the elements from head to tail |
| LinkedLists.LinkedList.GetSize | src/utils/graphDataStructures.ts:131-133 | the `size` counter equals the number of elements |
| Validation.ValidateUnibeEmail | src/utils/validation.ts:16-32 | an empty address yields "required". Otherwise the result is valid iff the address is one or more of `[a-zA-Z0-9._-]` followed by `@est.unibe.edu.do`, and a rejected address yields the institutional-address error. The error is present iff the result is invalid |
| Validation.EmailRegexTest | src/utils/validation.ts:22-24 | an accepted address is longer than the suffix, ends with `@est.unibe.edu.do`, and has only `[a-zA-Z0-9._-]` characters in front of it |
| Validation.EmailRegexTestCorrect | src/utils/validation.ts:22-24 | the scanner for the e-mail regular expression accepts exactly the character-level description of institutional addresses |
| Validation.ContainsClass | src/utils/validation.ts:70-72 | `/[C]/.test(s)` holds iff some character of `s` is in `C` |
| Validation.AllInClass | src/utils/validation.ts:22 | the characters of `s` are all in `C` iff the scanner accepts `s` |
| Validation.CheckDuplicateEmail | src/utils/validation.ts:40-42 | true iff some registered entry equals the lower-cased candidate |
| Validation.ToLowerChar | src/utils/validation.ts:41 | an ASCII capital becomes the lower-case letter 32 code points above it; every other character is kept; no capital remains |
| Validation.ToLower | src/utils/validation.ts:41 | ASCII lower-casing of the candidate address keeps the length, turns each ASCII capital into the letter 32 code points above it, and keeps every other character |
| Validation.ToLowerNormalises | src/utils/validation.ts:41 | lower-casing is idempotent and leaves a string without capitals unchanged |
| Validation.DuplicateIgnoresCandidateCase | src/utils/validation.ts:40-42 | two candidates differing only in ASCII letter case get the same answer |
| Validation.MixedCaseEntryNeverMatches | src/utils/validation.ts:40-42 | a registered entry holding an ASCII capital never matches any candidate, because only the candidate is lower-cased |
| Validation.ValidatePassword | src/utils/validation.ts:54-86 | an empty password yields "required" and no requirements. Otherwise the four requirements are reported as: length at least 8, some ASCII capital, some ASCII lower-case letter, some character of the special class. The password is valid iff all four hold, and the error is present iff it is invalid |
| Validation.ValidateStudentId | src/utils/validation.ts:95-111 | an empty id yields "required". Otherwise the id is valid iff it is two ASCII digits, a hyphen and four ASCII digits (so seven characters), and the error is present iff it is invalid |
| Validation.StudentIdRegexTest | src/utils/validation.ts:101-103 | accepts exactly the seven-character strings with a hyphen at position 2 and an ASCII digit at every other position |
| Validation.StudentIdRegexTestCorrect | src/utils/validation.ts:101-103 | the scanner for `^\d{2}-\d{4}$` accepts exactly the strings of two digits, a hyphen and four digits |

## Left out

- Iteration order of JavaScript `Set` and `Map`. Results built with `Array.from` and `forEach` (`getFriends`, `getMutualFriends`, `getSuggestedFriends`) are specified by their members, each exactly once, and not by their order. The source returns insertion order.
- Friendship.FriendshipGraph.GetStats: `averageFriends` and `totalConnections` are exact reals. IEEE-754 rounding of the division is not modelled.
- Friendship.FriendshipGraph.GetSuggestedFriends: `maxDistance` is an integer. A fractional JavaScript `number` is not modelled.
- The JavaScript `number` counters (`size`, `getDegree`, `getSize`) are unbounded naturals. Precision loss above 2^53 is not modelled.
- WorkQueues.Queue.Dequeue: the cost of `Array.prototype.shift` is not modelled, only its result.
- LinkedLists.LinkedList.Remove: elements are compared with Dafny value equality. JavaScript `===` on objects compares references, which the model does not distinguish.
- LinkedLists.LinkedList.Find: the predicate is a pure Dafny function. A callback with side effects, or one that throws, is not modelled.
- Validation.ToLowerChar, Validation.ToLower, Validation.CheckDuplicateEmail: `toLowerCase` is modelled on ASCII letters only. The full Unicode case mapping, including characters whose lower case has a different length, is not modelled.
- Validation.ValidatePassword: the length rule counts Unicode scalar values. JavaScript's `length` counts UTF-16 code units, so a character outside the Basic Multilingual Plane counts twice there.
- Values that are not strings (`null`, `undefined`), which the `!email`-style guards would also reject, are not modelled. Every input is a string.
- The React components, the application state, the type declarations and the mock data are not part of this model.
