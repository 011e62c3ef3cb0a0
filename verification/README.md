# Alien dictionary discovery, modelled in Dafny

`AlphabetDiscovery` recovers the alphabet of an unknown language from a list
of words that is sorted in that language's order. It exists in three
versions: Java solution1, Java solution2 and a Python port. Each works in
three stages:

1. **`processWords`** walks the list recursively and builds a successor
   graph.
   - Consecutive words whose first difference is at depth `d` give the edge
     "the earlier word's character at `d` comes before the later one's".
   - A run of words sharing their character at depth `d` is processed again
     at depth `d + 1`.
2. **`CharacterComparator` / `CustomPriorityQueue`** builds an in-degree
   index of the graph. `computeAlphabet` / `compute_alphabet` then takes the
   nodes out of a priority queue keyed by that index.
   - Each node is asserted to have in-degree 0 when it leaves.
   - `removeCharacter` / `remove` decrements the node's successors.
3. Every character of the words that never became a node is appended at the
   end.

The model is split into modules:

- `Words` defines the evidence a word list carries.
  - `Precedes(ws, a, b)` holds when two consecutive words first differ at
    some position with `a` and `b` there.
  - `WellFormed(ws)` holds when no later word is a prefix of an earlier one.
- `Graphs` holds the successor graph, its cycles and topological orders.
- `Extraction` is `processWords`, for both languages. It is one function with
  a `Variant`: the two Java classes share the same text, and the Python port
  differs only in where its trailing run ends. A list or character read out of
  range (Java's `IndexOutOfBoundsException`, Python's `IndexError`) is the
  outcome `Fail(IndexOutOfBounds)`.
- `ExtractionShape`, `ExtractionProofs` and `ExtractionFacts` describe what
  the extraction yields, in terms of the evidence:
  - the edges are evidence;
  - for Java, the edges are exactly the evidence;
  - a well-formed list never reads out of range.
- `InDegree` holds the comparator's index and `removeCharacter`. `Linearize`
  holds the two queue disciplines:
  - solution1 repositions the decremented successors, so it always takes a
    node of least current count;
  - solution2 and the Python heap never reposition anything, so their order
    is a parameter.
- `Assembly` adds the leftover characters. `Alphabet` composes the last two
  stages.
- `Evidence` states the answer independently of any graph.
  - `Consistent(ws)` holds when no chain of evidence returns to its start.
  - `Discovered(ws, alphabet)` holds when the alphabet lists every character
    of the words once, and lists the earlier character of every piece of
    evidence first.
  - Ordered words induce reachability: on a well-formed list, any two words,
    consecutive or not, are joined by a chain of evidence between their first
    differing characters. So an alphabet that agrees with the evidence orders
    every two words the way the list does (`OrdersAllPairs`).
- `Solution1`, `Solution2` and `PythonPort` are the public entry points.
- `JavaTests` restates the Java test suite's expectations as lemmas about
  `Solution1.Outcome`.

Java `assert` statements and failing Python asserts are the outcome
`Fail(AssertionFailed)`: the model treats assertions as enabled.

## Model

Source paths are relative to the repository root.

| member | source | states |
|---|---|---|
| Solution1.GetAlphabet | java/Interviews/src/main/java/interviews/graph/solution1/AlphabetDiscovery.java:38-58 | no words give the empty alphabet, one word gives that word itself; for two or more words the result lists every character of the words exactly once in an order agreeing with all the evidence, it exists exactly when the reads stay in range and the evidence has no cycle, and on a well-formed list the only possible failure is the cycle assertion and a result orders the first difference of every two words, consecutive or not, the way the list does; a result lists the graph's nodes in a topological order, then the words' other characters |
| Solution1.GetAlphabetAsString | java/Interviews/src/main/java/interviews/graph/solution1/AlphabetDiscovery.java:60-84 | the string form has the same outcome as `getAlphabet` for every word list, including the order of every two words of a well-formed list and the nodes-then-leftovers layout |
| Solution2.GetAlphabet | java/Interviews/src/main/java/interviews/graph/solution2/AlphabetDiscovery.java:36-56 | "" for no words, the word for one; any result is a discovered alphabet that lists the graph's nodes before the words' other characters and, on a well-formed list, orders the first difference of every two words the way the list does; inconsistent evidence always fails and a graph without edges never fails; an index error happens exactly when the extraction reads out of range, and a well-formed list can only fail an assertion |
| PythonPort.GetAlphabet | python/Interviews/interviews/main/alphabet_discovery.py:58-74 | [] for no words, the word for one; any result lists every character once, respects the Python graph and lists that graph's nodes in a topological order before the words' other characters; a cycle in that graph always fails and a graph without edges never fails; an index error happens exactly when the extraction reads out of range |
| Extraction.ProcessWords | java/Interviews/src/main/java/interviews/graph/solution1/AlphabetDiscovery.java:87-144 | processWords only ever adds nodes, and its only failure is a read out of range |
| Extraction.Scan | java/Interviews/src/main/java/interviews/graph/solution1/AlphabetDiscovery.java:104-136 | the word loop only ever adds nodes, and its only failure is a read out of range |
| Extraction.CloseRun | java/Interviews/src/main/java/interviews/graph/solution1/AlphabetDiscovery.java:114-122 | completing a run only ever adds nodes, and its only failure is a read out of range |
| Extraction.Extract | java/Interviews/src/main/java/interviews/graph/solution1/AlphabetDiscovery.java:53 | the top-level call on the whole list with an empty graph can fail only by reading out of range: no assertion of processWords fails |
| Graphs.EnsureNodeEdges | java/Interviews/src/main/java/interviews/graph/solution1/AlphabetDiscovery.java:96-99 | registering a character makes it a node (an existing one is left as it is), adds no edge, loses nothing and keeps successors registered |
| Graphs.AddEdgeEdges | java/Interviews/src/main/java/interviews/graph/solution1/AlphabetDiscovery.java:130-131 | recording a successor adds exactly that one edge, keeps the nodes and loses nothing |
| ExtractionShape.ProcessWordsShape | java/Interviews/src/main/java/interviews/graph/solution1/AlphabetDiscovery.java:95-131 | a result extends the graph it was given, adds only characters of the words as nodes, and keeps every successor registered as a node when the given graph does |
| ExtractionProofs.ProcessWordsSound | java/Interviews/src/main/java/interviews/graph/solution1/AlphabetDiscovery.java:130-131 | for a range whose words share their first `depth` characters, every edge added is evidence: two consecutive words first differ with its two characters |
| ExtractionProofs.ProcessWordsComplete | java/Interviews/src/main/java/interviews/graph/solution1/AlphabetDiscovery.java:104-142 | in Java, for a range whose words share their first `depth` characters, every consecutive pair of the range that first differs at `depth` or later yields the edge between its differing characters |
| ExtractionProofs.ProcessWordsOk | java/Interviews/src/main/java/interviews/graph/solution1/AlphabetDiscovery.java:87-144 | on a well-formed list, a range of at least two words sharing a prefix of length `depth` is processed without reading out of range (both variants) |
| ExtractionFacts.ExtractSound | java/Interviews/src/main/java/interviews/graph/solution1/AlphabetDiscovery.java:53 | the whole-list graph has only evidence as edges and only characters of the words as nodes, registers successors and has no self-loop |
| ExtractionFacts.ExtractComplete | java/Interviews/src/main/java/interviews/graph/solution2/AlphabetDiscovery.java:51 | the Java graph's edges are exactly the evidence (both directions) |
| ExtractionFacts.ExtractSucceeds | python/Interviews/interviews/main/alphabet_discovery.py:70 | a well-formed list of at least two words is processed without any read out of range |
| InDegree.InEdgeCounts | java/Interviews/src/main/java/interviews/graph/solution1/AlphabetDiscovery.java:149-164 | the index has an entry for every node and every successor, and each entry is the number of nodes listing that character as a successor |
| InDegree.CountSuccessors | python/Interviews/interviews/main/alphabet_discovery.py:28-32 | each successor's entry is created at 0 when missing and raised by one, and nothing else changes |
| InDegree.RemoveCharacter | java/Interviews/src/main/java/interviews/graph/solution2/AlphabetDiscovery.java:143-150 | succeeds exactly when every successor has an entry, differs from the removed node, and has a positive count; the result drops the node and lowers each successor by one |
| InDegree.RemoveKeepsIndex | python/Interviews/interviews/main/alphabet_discovery.py:35-40 | removing a waiting node whose successors all wait leaves exactly the index of the remaining nodes |
| Linearize.ProgressStep | java/Interviews/src/main/java/interviews/graph/solution1/AlphabetDiscovery.java:191-196 | emitting a waiting node of count 0 satisfies both assertions of `removeCharacter`, and keeps the loop invariant: the emitted nodes list each node once, every edge among them goes forwards, and no waiting node points back |
| Linearize.ProgressStuck | java/Interviews/src/main/java/interviews/graph/solution1/AlphabetDiscovery.java:192 | when even the least count is positive, the graph has a cycle |
| Linearize.NextBlocked | java/Interviews/src/main/java/interviews/graph/solution2/AlphabetDiscovery.java:164 | when the node the heap yields has a positive count, the heap's order is not topological |
| Linearize.ByLeastCount | java/Interviews/src/main/java/interviews/graph/solution1/AlphabetDiscovery.java:186-197 | the loop succeeds exactly when the graph is acyclic, and then emits every node once with every edge going forwards; otherwise an assertion fails |
| Linearize.InGivenOrder | java/Interviews/src/main/java/interviews/graph/solution2/AlphabetDiscovery.java:158-167 | with the heap's order given, the loop succeeds exactly when that order is topological, and then emits exactly that order |
| Graphs.NoSourceMeansCycle | java/Interviews/src/main/java/interviews/graph/solution1/AlphabetDiscovery.java:190-192 | a nonempty set of nodes each with a predecessor inside the set implies a cycle |
| Graphs.TopoOrderIsAcyclic | python/Interviews/interviews/main/alphabet_discovery.py:142-146 | a graph whose nodes can be emitted with every edge going forwards has no cycle |
| Assembly.Unordered | java/Interviews/src/main/java/interviews/graph/solution1/AlphabetDiscovery.java:199-208 | the collected set is exactly the characters of the words that are not nodes |
| Assembly.Concatenation | java/Interviews/src/main/java/interviews/graph/solution2/AlphabetDiscovery.java:180 | a topological order followed by the leftover characters lists every character of the words once and still respects every edge |
| Alphabet.LeastCountAlphabet | java/Interviews/src/main/java/interviews/graph/solution1/AlphabetDiscovery.java:181-213 | the result exists exactly when the graph is acyclic; it then lists every character of the words once, respects every edge, and is a topological order of the nodes followed by the characters that are not nodes |
| Alphabet.NodesBeforeRest | java/Interviews/src/main/java/interviews/graph/solution1/AlphabetDiscovery.java:199-212 | in that layout every node of the graph comes before every character of the words that is not a node |
| Alphabet.HeapOrderAlphabet | python/Interviews/interviews/main/alphabet_discovery.py:134-158 | any result lists every character once, respects every edge and is a topological order of the nodes followed by the characters that are not nodes; a cyclic graph always fails, a graph without edges never fails, and the only failure is an assertion |
| Evidence.JavaGraphAcyclic | java/Interviews/src/main/java/interviews/graph/solution1/AlphabetDiscovery.java:53-55 | the Java graph is acyclic exactly when the evidence is consistent |
| Evidence.JavaGraphOrdersEvidence | java/Interviews/src/main/java/interviews/graph/solution2/AlphabetDiscovery.java:53 | an alphabet respects the Java graph exactly when it agrees with the evidence |
| Evidence.OrderedMeansConsistent | java/Interviews/src/main/java/interviews/graph/solution1/AlphabetDiscovery.java:190-197 | an alphabet agreeing with all the evidence exists only when the evidence is consistent |
| Evidence.OrderedWordsReach | java/Interviews/src/main/java/interviews/graph/solution1/AlphabetDiscovery.java:87-144 | ordered words induce reachability: on a well-formed list with consistent evidence, when two words (not necessarily consecutive) first differ, a chain of evidence leads from the earlier word's character to the later one's |
| Evidence.JavaGraphReaches | java/Interviews/src/main/java/interviews/graph/solution1/AlphabetDiscovery.java:87-144 | that chain is a path of the Java graph built by processWords |
| Evidence.AllPairsOrdered | java/Interviews/src/main/java/interviews/graph/solution1/AlphabetDiscovery.java:53-55 | on a well-formed list, an alphabet agreeing with the evidence of consecutive words puts the first difference of every two words in the list's order |
| PythonPort.PythonGraphAcyclic | python/Interviews/interviews/main/alphabet_discovery.py:77-130 | every edge of the Python graph is evidence, so consistent evidence gives an acyclic Python graph |
| PythonPort.SampleGraph | python/Interviews/interviews/main/alphabet_discovery.py:128-130 | for ["ba","bc","ca","cb"] the Python graph is b→c, a→c: the trailing run "ca","cb" is processed as "ca" alone |
| PythonPort.TrailingRunMissesEvidence | python/Interviews/interviews/main/alphabet_discovery.py:100-130 | for ["ba","bc","ca","cb"], "a" precedes "b" and the Java graph has that edge, the Python graph does not, and "bac" respects the Python graph while contradicting the words |
| PythonPort.FirstCharacterMatchesGraph | python/Interviews/interviews/main/alphabet_discovery.py:128-130 | for "cat","cbt" the Python graph is the nodes c and a with no edge: the trailing run is processed as "cat" alone, so the a→b evidence is lost |
| PythonPort.FirstCharacterMatchesTest | python/Interviews/interviews/test/test_alphabet_discovery_test.py:22-30 | for "cat","cbt" the Python port always returns an alphabet, whatever the heap order; c and a come first and a precedes b, only because b is a leftover character |
| PythonPort.TwoWordsGraph | python/Interviews/interviews/main/alphabet_discovery.py:100-126 | for "cat","bat" the Python graph is the single edge c→b |
| PythonPort.TwoWordsTest | python/Interviews/interviews/test/test_alphabet_discovery_test.py:11-19 | for "cat","bat" any Python result puts c before b |
| PythonPort.PartialOrderGraph | python/Interviews/interviews/main/alphabet_discovery.py:109-126 | for "cat","cbt","b" the run closed inside the loop keeps its full length, so the Python graph is c→b and a→b |
| PythonPort.PartialOrderTest | python/Interviews/interviews/test/test_alphabet_discovery_test.py:33-42 | for "cat","cbt","b" any Python result puts a and c before b |
| JavaTests.TwoWordsTest | java/Interviews/src/test/java/interviews/graph/AlphabetDiscoveryTest.java:36-52 | for "cat","bat" the alphabet exists and puts c before b |
| JavaTests.FirstCharacterMatchesTest | java/Interviews/src/test/java/interviews/graph/AlphabetDiscoveryTest.java:54-70 | for "cat","cbt" the alphabet exists and puts a before b |
| JavaTests.PartialOrderTest | java/Interviews/src/test/java/interviews/graph/AlphabetDiscoveryTest.java:72-89 | for "cat","cbt","b" the alphabet exists with a before b and c before b |
| JavaTests.PartialOrder2Test | java/Interviews/src/test/java/interviews/graph/AlphabetDiscoveryTest.java:91-109 | for "ab","ad","b","c","d" the alphabet exists with a<b<c<d |
| JavaTests.PartialOrder3Test | java/Interviews/src/test/java/interviews/graph/AlphabetDiscoveryTest.java:111-134 | for the eleven-word list the alphabet exists with all eight asserted orderings, e<b and g<c only through chains of evidence |
| JavaTests.PartialOrder4Test | java/Interviews/src/test/java/interviews/graph/AlphabetDiscoveryTest.java:136-155 | for "ab","ad","b","c","d","e" the alphabet exists with a<b<c<d<e |

## Left out

- Memoisation (`alphabet != null`, `alphabetAsString != null`, `self.alphabet is not None`) is left out. A second call returns the first answer, and the model is a pure function of the words.
- Mutation of the input list after construction is left out for the same reason.
- Strings and character lists are both `seq<char>`. The Guava `Lists.charactersOf`, `Joiner` and `StringBuilder` conversions therefore become the identity, and `GetAlphabetAsString` keeps only its loop.
- Words are sequences of Unicode code points. Python's `str` indexes code points, so this matches the Python port. Java's `charAt` and `char` index UTF-16 code units, so it matches the Java code only for text inside the Basic Multilingual Plane. For ["𝔸", "𝔹"] Java would register the surrogate halves as nodes and join the two low surrogates, where the model joins 𝔸 to 𝔹.
- The internal layout of `PriorityQueue` and of Python's `heapq` is not modelled.
  - For solution1 this loses nothing: the decremented successors are removed and re-added, so a node of least count leaves first.
  - For solution2 and the Python port, the order the heap yields is left open. `Linearize.InGivenOrder` takes it as a parameter, and `Alphabet.HeapOrderAlphabet` takes any permutation of the nodes.
  - `HashMap`/`HashSet`/`dict`/`set` iteration order is likewise left open (`Words.Enumerate`).
- Solution2.GetAlphabet: promises no success on consistent evidence. Whether the unrepositioned heap yields a topological order depends on its layout, which is not modelled.
- PythonPort.GetAlphabet: promises no success on consistent evidence, for the same reason. It also promises agreement only with the Python graph, which can miss evidence (see Findings).
- Alphabet.HeapOrderAlphabet: states success only for a graph without edges, because otherwise it depends on the heap's order (see `Linearize.InGivenOrder` for the exact condition).
- Assertions are treated as enabled. Java runs without `-ea` by default; the outcome is still a failure then. On inconsistent evidence the first node of a cycle to leave the queue leaves with a positive count. Its predecessor on the cycle is still queued, and when it leaves, `removeCharacter` decrements the entry already removed for that node; the null it reads throws a `NullPointerException` (solution1 line 176, solution2 line 148). Only the exception type differs, and `Fail(AssertionFailed)` stands for both.
- The `assert rangeStartIndex >= 0` checks always hold, because a run always starts at a real index. They have no failure branch.
- Python's `len(...) is 0` and `is 1` are modelled as `==`. That holds for CPython's cached small integers, and they are identity tests only by accident.
- `InDegree.RemoveCharacter` treats a missing entry for the removed node as nothing to remove. Java's `Map.remove` does that; Python's `del` would raise `KeyError`. The linearisation only removes nodes that have an entry, so the difference never arises.
- The answer for a single word is that word itself, repeated characters included. That is what the code returns, although every other case lists each character once.
- Logging, `toString` / `__repr__`, the `AlphabetGraphNode` wrapper, the copied dictionary in `CustomPriorityQueue.__init__` and Python's `isinstance` check carry no behaviour and are left out.
- Recursion depth and stack or memory exhaustion are not modelled.
- `testOneWord` (AlphabetDiscoveryTest.java lines 23-34) has no lemma of its own, because it is the one-word clause of `Solution1.Outcome` with nothing to prove.
- The Python test suite checks the same orderings against the Python port.
  - `test_one_word` is the one-word clause of `PythonPort.GetAlphabet`.
  - `test_two_words` and `test_partial_order` are restated as "a result, if any, has the asserted orderings". Their Python graphs have edges, so whether the heap yields an order that passes the assertions depends on its unmodelled layout.
  - `test_two_words_first_character_matches` is restated in full. Its Python graph has no edge, so the result always exists.
  - `test_partial_order2`, `test_partial_order3` and `test_partial_order4` are not restated. Deriving the Python graph of these longer lists takes a step-by-step trace like `PythonPort.SampleGraph`, and none was written for them. Their success would also depend on the heap layout.

## Findings

| source | as written | input that shows it | evidently intended | confidence | as-written member | corrected member |
|---|---|---|---|---|---|---|
| python/Interviews/interviews/main/alphabet_discovery.py:128-130 | the run still open after the loop is processed with `word_index - range_start_index` words. `word_index` is the loop's last index, one before the range end, so the run's last word is dropped | `["ba", "bc", "ca", "cb"]`: the run "ca","cb" is cut to "ca" alone, so the evidence a before b never becomes an edge, and "bac" passes every assertion | process the run up to the range end, as the Java code does after its `for` loop | high (not executed) | PythonPort.TrailingRunMissesEvidence | ExtractionFacts.ExtractComplete |

The corrected extraction is the Java variant `Extract(Java, ·)`, used by
`Solution1` and `Solution2`; `ExtractionFacts.ExtractComplete` proves that its
edges are exactly the evidence. `PythonPort` keeps the Python variant as
written.
