# iptrie in Dafny

A model of `trie.go` from the Go package `iptrie`: an uncompressed binary trie
of IP networks with one root per address family. Each network is stored with a
payload on the node its prefix bits lead to. Two searches are modelled:
`SearchBest` finds the longest matching prefix, and `SearchFast` finds the
first (shortest) one. `Contains` and `ContainsIP` test whether any stored
network other than a /0 covers an address.

The model has the source's shape:

- `TrieNode` is a class. Its `zero`/`one` fields are Go's `children[0]`/`children[1]`.
  Its `marker` field is the `cidr`/`data` pair.
- `CIDRTrie` is a class holding the two roots.
- Insertion and both searches are methods with `while` loops over the address bits.
  Insertion creates missing nodes and writes the marker in place; the searches only read.

The proofs tie the trie to a ghost abstraction kept per family:

- `nodes` maps each bit path from the root to the node at its end.
- `marks` maps each path to the entry stored there.
- `repr` is the set of nodes in the tree.

`Tree` (`nodes.dfy`) states that the heap matches this abstraction:

- the paths are prefix-closed;
- each child field leads to the node one bit deeper or is null;
- each marker is the one the map records;
- every node belongs to its family.

Both searches are proved equal to pure functions over `marks`, defined in
module `Lpm`: the deepest marker on the address's bit path (`Longest`) and the
shallowest one (`First`). Insertion is proved to add exactly the inserted
network's path and marker.

The class invariant `CIDRTrie.Valid` also states that every marker sits at the
path of the network it holds: the first prefix-length bits of that network's
canonical address, in its family. With it, a search result is a stored network
that covers the address. Among the stored networks other than a /0 that
cover the address, `SearchBest`'s answer has the longest prefix and
`SearchFast`'s the shortest. A /0 network covers every address of its family,
but neither search reads the root's marker.

Modules:

- `Wrappers`: the `Option` and `Result` types.
- `Addr`: address bytes; Go's `To4`/`To16`; canonicalization (`canonicalizeIPAndGetRoot`
  without the root); the bit path of an address.
- `Lpm`: longest and first match over a path-keyed map of markers.
- `TrieNodes`: the node class, tree well-formedness, and the loops of `InsertIpNet`,
  `SearchBest` and `SearchFast` run on one family's tree.
- `Trie`: the `CIDRTrie` class and its public operations.

IPv4-mapped addresses follow the code's policy. `To4` is tried first, so
`::ffff:a.b.c.d` is stored and searched in the IPv4 tree as four bytes, for
insertion and for both searches alike.

## Model

| member | source | states |
|---|---|---|
| Addr.Canonicalize | trie.go:127-135 | An address has a canonical form iff it has 4 or 16 bytes. The form is in the IPv4 family iff the address has 4 bytes or is IPv4-mapped. Its width is that family's width (32 or 128 bits). Its bytes are the address's trailing bytes: only the mapping prefix is dropped. |
| Addr.To4 | trie.go:128 | `ip.To4()` gives a result iff the address has 4 bytes or is IPv4-mapped. The result is 4 bytes long: the address's last four bytes. |
| Addr.To16 | trie.go:131 | `ip.To16()` gives a result iff the address has 4 or 16 bytes. The result is 16 bytes long and ends with the address. A 4-byte address comes out IPv4-mapped. |
| Addr.MappedRoutesLikeV4 | trie.go:127-135 | A 4-byte address and its 16-byte mapped form (To16) canonicalize to the same IPv4 bytes, and To4 of the mapped form gives the address back. |
| Addr.CanonicalizeIdempotent | trie.go:127-135 | Canonical bytes canonicalize to themselves, in the same family. |
| Addr.Bit | trie.go:45-47 | Bit i of an address is set iff byte i/8 has the bit under mask `0x80 >> (i % 8)`: bits are counted from the most significant bit of byte 0. |
| Addr.Bits | trie.go:44-47 | The bit path of an address has eight bits per byte, one for each step of the loops. |
| Addr.BitsMsbFirst | trie.go:45-47 | Byte j spells bits 8j to 8j+7 of the path, most significant bit first. |
| Addr.BitsInjective | trie.go:46-49 | The bit extraction loses nothing: two addresses with the same bit path are equal. |
| Addr.SharedBytesShareBits | trie.go:46-49 | Addresses that agree on their first k bytes agree on their first 8k bits. |
| Addr.MappedNetOverrunsCanonicalForm | trie.go:37-49 | Counterexample: `::ffff:10.0.0.0/104` has a canonical form (4 IPv4 bytes), but its prefix length exceeds the 32 bits the loop can read, so it is not BitsInBounds. |
| Lpm.LongestDepth | trie.go:70-79 | The returned depth is at most n. A depth above 0 carries a marker, and no depth between it and n does. So it is the deepest marker along the path. |
| Lpm.FirstDepthFrom | trie.go:89-102 | The returned depth is 0 or lies in (i, n] and carries a marker, and no depth in (i, n] before it does. So it is the shallowest marker after i. |
| Lpm.LongestDepthUnmarked | trie.go:70-79 | Stopping at depth i, once the walk leaves the tree, gives the same longest match as going on to n when depths i+1..n carry no marker. |
| Lpm.MarkedDepthBounds | trie.go:69-102 | A marker at depth q on the path puts the first match at depth at most q and the longest match at depth at least q. |
| Lpm.FirstAgreesWithLongest | trie.go:113-125 | The first match exists iff the longest match does, and it is no deeper. So testing existence with SearchFast, as Contains does, gives the same answer as SearchBest. |
| Lpm.NestedMatchesDiverge | trie.go:59-104 | With markers at depths k1 < k2 on one path, the first match is at most k1 deep and the longest at least k2. Both exist. |
| Lpm.DepthsOnlySeePath | trie.go:59-104 | Two marker maps that agree on the path's depths 1..n give the same longest and first depth. |
| Lpm.RootMarkerIgnored | trie.go:70-76 | A marker on the root (a /0 network) changes neither search: the loops move to a child before testing a marker. |
| Lpm.InsertedFoundByLongest | trie.go:54-79 | After a marker is placed at path p, every address whose path starts with p finds it as its longest match, unless a deeper marker on its path overrides it. |
| Lpm.InsertedFoundByFirst | trie.go:54-102 | After a marker is placed at path p, every address through p with no marker above p finds it as its first match. |
| TrieNodes.TrieNode.constructor | trie.go:5-9 | `&TrieNode{}`: no children and no marker. |
| TrieNodes.TrieNode.SetChild | trie.go:50-51 | `children[bit] = c` changes that child only. The other child and the marker stay. |
| TrieNodes.PrefixClosed | trie.go:44-53 | In a well-formed tree every prefix of a node's path is also a node's path. |
| TrieNodes.ParentIn | trie.go:44-53 | The parent path of a node is a node. |
| TrieNodes.NoMarkBeyond | trie.go:70-79 | Once the path leaves the tree at depth k, no deeper node or marker exists on that path. |
| TrieNodes.ChildStep | trie.go:75 | A node's child for a bit is the node one bit deeper on the path, or null when there is none. |
| TrieNodes.MarkerStep | trie.go:76 | A node's marker is the one the abstraction records at its path. |
| TrieNodes.LoneRoot | trie.go:106-111 | A root has no child iff it is its tree's only node. |
| TrieNodes.Descend | trie.go:50-52 | One step of the insertion loop. An existing child is reused and the tree is unchanged. A missing child is created fresh, and the tree gains exactly that path. |
| TrieNodes.Grow | trie.go:50-51 | Creating a missing child keeps the tree well formed. The tree gains exactly the new path and node. |
| TrieNodes.PresentPathAddsNothing | trie.go:44-53 | Walking a path the tree already has adds no node. |
| TrieNodes.Walk | trie.go:44-53 | The insertion loop. Afterwards the tree holds its old nodes in their old places plus every prefix of the path, and nothing else. The node returned is at the path's end. New nodes are fresh. |
| TrieNodes.InsertPath | trie.go:44-55 | The loop and the marker write. The tree stays well formed, gains exactly the path's prefixes, keeps its old nodes at their old paths, and its markers are the old ones with the entry placed at the path. |
| TrieNodes.SearchBestFrom | trie.go:67-80 | The SearchBest loop returns the longest match of the address's bit path, `Lpm.Longest`. |
| TrieNodes.SearchFastFrom | trie.go:88-103 | The SearchFast loop returns the first match of the address's bit path, `Lpm.First`. |
| Trie.EntryAtItsPath | trie.go:44-55 | Placing an entry at the path of its own network keeps every marker at the path of the network it holds. |
| Trie.MarkedPrefixCovers | trie.go:69-79 | When markers sit at their networks' paths, the marker found at depth d of an address's path holds a network of prefix length d that covers the address. |
| Trie.CoverIsMarkedPrefix | trie.go:44-55 | Conversely, a stored network that covers an address sits on that address's path, in its family, at the depth of its prefix length. |
| Trie.CIDRTrie.constructor | trie.go:16-21 | NewCIDRTrie gives two fresh, well-formed, childless roots with no markers, and the trie is blank. |
| Trie.CIDRTrie.IsBlank | trie.go:106-111 | Blank iff each family's tree is its root alone. |
| Trie.CIDRTrie.InsertIpNet | trie.go:36-57 | For a net whose prefix fits its canonical bytes, the net's family gains the marker (net, data) at its prefix path and the nodes along it. The other family is untouched. An address without a canonical form changes nothing. The trie stays valid: well formed, and every marker at its network's path. A prefix below the root makes the trie non-blank; a /0 leaves IsBlank unchanged. |
| Trie.CIDRTrie.InsertIpNetGuarded | trie.go:36-57 | The corrected InsertIpNet. It inserts as above and returns no error when the prefix fits. Otherwise it returns `PrefixTooLong` and changes nothing, where InsertIpNet as written reads past the end of the address. |
| Trie.CIDRTrie.InsertInto | trie.go:44-55 | Insertion into one family's tree. Its markers become the old ones with the entry at the path, and its nodes gain the path's prefixes. Its old nodes stay at their old paths. Re-inserting at a path the tree already has adds no node, so only that path's marker changes. The other family's tree is unchanged. |
| Trie.CIDRTrie.Insert | trie.go:23-34 | A parse error is returned and nothing changes. A missing network returns no error and changes nothing. A network whose prefix is longer than its canonical address is refused with `PrefixTooLong` and changes nothing. Otherwise the network is inserted and no error is returned. |
| Trie.CIDRTrie.SearchBest | trie.go:59-81 | Returns the longest-prefix match of the canonical address in its family's tree, or nothing for an address with no canonical form. |
| Trie.CIDRTrie.SearchFast | trie.go:83-104 | Returns the first (shortest) match of the canonical address in its family's tree, or nothing for an address with no canonical form. |
| Trie.CIDRTrie.BestMatchCovers | trie.go:59-81 | SearchBest's answer, when there is one, has a prefix length above 0 and covers the address: same family, and the address's bits begin with the network's prefix. |
| Trie.CIDRTrie.BestMatchIsLongest | trie.go:59-81 | When a stored network below a root covers the address, SearchBest finds an answer, and that network's prefix is no longer than the answer's. |
| Trie.CIDRTrie.FirstMatchCovers | trie.go:83-104 | SearchFast's answer, when there is one, has a prefix length above 0 and covers the address. |
| Trie.CIDRTrie.FirstMatchIsShortest | trie.go:83-104 | When a stored network below a root covers the address, SearchFast finds an answer whose prefix is no longer than that network's. |
| Trie.CIDRTrie.MatchIffCovered | trie.go:59-104 | SearchBest finds a match iff some stored network below a root covers the address. |
| Trie.CIDRTrie.SearchesAgree | trie.go:59-104 | SearchFast finds a match iff SearchBest does. |
| Trie.CIDRTrie.BlankFindsNothing | trie.go:106-111 | In a blank trie neither search finds anything, whatever is stored on the roots. |
| Trie.CIDRTrie.MappedSearchesLikeV4 | trie.go:127-135 | An IPv4 address and its IPv4-mapped IPv6 form get the same answer from both searches. |
| Trie.CIDRTrie.ContainsIP | trie.go:122-125 | True iff SearchBest finds a match, which is iff some stored network below a root (not a /0) covers the address. |
| Trie.CIDRTrie.Contains | trie.go:113-120 | False for an unparsable literal. Otherwise true iff some stored network below a root covers the parsed address. |
| Trie.DeepMatchScenario | trie_test.go:11-67 | With 192.168.0.0/16, 192.168.1.0/24 and 192.168.1.128/25 stored, the longest match for 192.168.1.150 is the /25 and the first match is the /16. |
| Trie.DeepMatchSearches | trie_test.go:11-67 | The same three inserts into a new trie make SearchBest return the /25 entry and SearchFast the /16 entry for 192.168.1.150. |

## Left out

- Parsing is not modelled. `net.ParseCIDR` and `net.ParseIP` are library code.
  `Insert` takes the outcome of ParseCIDR as a `Result<Option<IPNet>, ParseError>`.
  `Contains` takes the outcome of ParseIP as an `Option` of address bytes.
  The parse error's text is not modelled.
- `ipNet.Mask.Size()` is not modelled. A network carries the prefix length it yields.
  A non-canonical mask, for which Size returns 0, is a network with prefix length 0.
- The mask bytes of a stored network are not modelled. Only the address and prefix length are kept.
- Go stores the caller's `*net.IPNet` itself. The model stores the network by value, so later changes the caller makes to that object are not modelled.
- A nil `*net.IPNet` passed straight to `InsertIpNet` is a nil dereference in Go (trie.go:37 reads `ipNet.IP`). The model's network is a value and cannot be nil. `Insert` never passes nil (trie.go:29-31).
- The payload's type `any` is a type parameter `T`.
- `cidr` and `data` are one `Option<Entry<T>>` field, since the source always writes them together.
- A nil `cidr` is `None`.
- The `error` results of `Insert` and `InsertIpNet` are not fully modelled. InsertIpNet always returns nil, so it returns nothing here. `InsertIpNetGuarded` and `Insert` return an `Option<InsertError>`: a parse error, or `PrefixTooLong`. The error's text is not modelled.
- Trie.CIDRTrie.InsertIpNet: it requires `BitsInBounds(net)`. For a network that fails it, the source indexes past the end of the canonical address and panics. The corrected `InsertIpNetGuarded` covers that input (see Findings).
- Trie.CIDRTrie.Insert: it calls `InsertIpNetGuarded`, not the as-written `InsertIpNet`. An IPv4-mapped literal with a prefix longer than /32 is refused with `PrefixTooLong` instead of panicking.
- Concurrency is not modelled. The Go type has no locking, and the model assumes one caller at a time.
- Go's `net.ParseCIDR` bounds the mask by the literal's own family, so `::ffff:a.b.c.d` accepts prefixes up to /128. The walk, however, uses the 4-byte canonical form, and trie.go adds no check of its own. The model follows the code: `InsertIpNet` requires the prefix to fit, and `InsertIpNetGuarded` refuses a network whose prefix does not, with an error that leaves the trie unchanged.

## Findings

| source | as written | input that shows it | evidently intended | confidence | as-written member | corrected member |
|---|---|---|---|---|---|---|
| trie.go:37-49 | After canonicalization, the bit loop runs to the prefix length taken from the original mask. An IPv4-mapped address shrinks to 4 bytes, but its IPv6 mask can give a prefix up to 128. | `Insert("::ffff:10.0.0.0/104", x)`: ParseCIDR yields the 16-byte mapped address with a /104 mask. To4 makes the walk use 4 bytes. At i = 32 the loop reads `ip[4]` and panics with an index out of range. | Refuse a network whose prefix is longer than its canonical address with an invalid-network error, leaving the trie unchanged. | not executed | Trie.CIDRTrie.InsertIpNet, Addr.MappedNetOverrunsCanonicalForm | Trie.CIDRTrie.InsertIpNetGuarded |
