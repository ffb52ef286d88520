/**
 * CIDRTrie: the two roots, insertion of a network with its payload, the
 * longest-match and first-match searches, and the boolean wrappers, each
 * proved against the per-family marker maps the trie abstracts to.
 */
module Trie {
  import opened Wrappers
  import opened Addr
  import opened TrieNodes
  import Lpm

  /** The error net.ParseCIDR reports for a malformed literal; its text is not modelled. */
  datatype ParseError = ParseError

  /**
   * Why an insertion was refused: the literal did not parse, or the network's
   * prefix is longer than its canonical address (an IPv4-mapped address with
   * an IPv6 prefix beyond /32), which the corrected insertion reports as an
   * invalid network instead of walking past the address's end.
   */
  datatype InsertError = BadLiteral(ParseError) | PrefixTooLong

  function Other(f: Family): Family {
    if f == V4 then V6 else V4
  }

  /**
   * The marker at each path p of a family's map holds a network of that
   * family whose canonical bits, cut to its prefix length, are p.
   */
  ghost predicate EntriesAt<T>(f: Family, marks: map<seq<bool>, Entry<T>>) {
    forall p | p in marks :: StoredAt(marks[p].cidr, f, p)
  }

  /** Placing an entry at its own network's path keeps every marker at its path. */
  lemma EntryAtItsPath<T>(f: Family, marks: map<seq<bool>, Entry<T>>, path: seq<bool>, e: Entry<T>)
    requires EntriesAt(f, marks) && StoredAt(e.cidr, f, path)
    ensures EntriesAt(f, marks[path := e])
  {
  }

  /**
   * A marker found at depth d of an address's bit path holds a network of
   * prefix length d that covers the address.
   */
  lemma MarkedPrefixCovers<T>(marks: map<seq<bool>, Entry<T>>, ip: seq<Byte>, d: nat)
    requires Canonicalize(ip).Some? && EntriesAt(Canonicalize(ip).value.family, marks)
    requires d <= |Bits(Canonicalize(ip).value.bytes)| && Bits(Canonicalize(ip).value.bytes)[..d] in marks
    ensures var e := marks[Bits(Canonicalize(ip).value.bytes)[..d]];
            e.cidr.prefixLen == d && Covers(e.cidr, ip)
  {
    var bits := Bits(Canonicalize(ip).value.bytes);
    var e := marks[bits[..d]];
    assert StoredAt(e.cidr, Canonicalize(ip).value.family, bits[..d]);
    var n := Canonicalize(e.cidr.ip).value;
    assert |Bits(n.bytes)[..e.cidr.prefixLen]| == e.cidr.prefixLen;
  }

  /**
   * Conversely, a stored network that covers an address sits on that
   * address's bit path, at the depth of its prefix length.
   */
  lemma CoverIsMarkedPrefix<T>(f: Family, marks: map<seq<bool>, Entry<T>>, ip: seq<Byte>, p: seq<bool>)
    requires EntriesAt(f, marks) && p in marks && Covers(marks[p].cidr, ip)
    ensures Canonicalize(ip).Some? && Canonicalize(ip).value.family == f
    ensures |p| == marks[p].cidr.prefixLen <= |Bits(Canonicalize(ip).value.bytes)|
    ensures p == Bits(Canonicalize(ip).value.bytes)[..|p|]
  {
    assert StoredAt(marks[p].cidr, f, p);
  }

  class CIDRTrie<T> {
    const rootV4: TrieNode<T>
    const rootV6: TrieNode<T>
    /** Proof only: each family's tree as the proof sees it. */
    ghost var viewV4: TreeView<T>
    ghost var viewV6: TreeView<T>

    /** The root canonicalizeIPAndGetRoot picks for a family. */
    function Root(f: Family): TrieNode<T> {
      if f == V4 then rootV4 else rootV6
    }

    ghost function View(f: Family): TreeView<T>
      reads this
    {
      if f == V4 then viewV4 else viewV6
    }

    /** The abstraction: a family's terminal markers, by bit path from its root. */
    ghost function Marks(f: Family): map<seq<bool>, Entry<T>>
      reads this
    {
      View(f).marks
    }

    /**
     * The class invariant: both trees are well formed (being of different
     * families, they share no node), and every marker sits at the path of the
     * network it holds.
     */
    ghost predicate Valid()
      reads this, viewV4.repr, viewV6.repr
    {
      Trees() && EntriesOf(V4) && EntriesOf(V6)
    }

    ghost predicate Trees()
      reads this, viewV4.repr, viewV6.repr
    {
      TreeOf(V4) && TreeOf(V6)
    }

    ghost predicate TreeOf(f: Family)
      reads this, View(f).repr
    {
      Tree(f, Root(f), View(f).nodes, View(f).marks, View(f).repr)
    }

    ghost predicate EntriesOf(f: Family)
      reads this
    {
      EntriesAt(f, Marks(f))
    }

    /**
     * What SearchBest answers for ip: nothing for an address without a
     * canonical form, else the longest match on its bit path in its family.
     */
    ghost function BestMatch(ip: seq<Byte>): Option<Entry<T>>
      reads this
    {
      match Canonicalize(ip)
      case None => None
      case Some(c) => Lpm.Longest(Marks(c.family), Bits(c.bytes))
    }

    /** What SearchFast answers for ip: the same, with the first match instead. */
    ghost function FirstMatch(ip: seq<Byte>): Option<Entry<T>>
      reads this
    {
      match Canonicalize(ip)
      case None => None
      case Some(c) => Lpm.First(Marks(c.family), Bits(c.bytes))
    }

    /**
     * The effect of inserting net with data: the net's family gains the marker
     * Entry(net, data) at the net's path (replacing any marker there) and the
     * nodes on that path; the other family is untouched. An address without a
     * canonical form changes nothing.
     */
    twostate predicate InsertedNet(net: IPNet, data: T)
      requires BitsInBounds(net)
      reads this
    {
      match Canonicalize(net.ip)
      case None => View(V4) == old(View(V4)) && View(V6) == old(View(V6))
      case Some(c) =>
        var f, path := c.family, Bits(c.bytes)[..net.prefixLen];
        && Marks(f) == old(Marks(f))[path := Entry(net, data)]
        && View(f).nodes.Keys == old(View(f).nodes.Keys) + PathPrefixes(path, |path|)
        && View(Other(f)) == old(View(Other(f)))
    }

    /**
     * IsBlank: neither root has a child, which is to say each tree is its
     * root alone (a marker on a root, from a /0 network, does not count).
     */
    function IsBlank(): (b: bool)
      requires Valid()
      reads this, viewV4.repr, viewV6.repr
      ensures b <==> View(V4).nodes.Keys == {[]} && View(V6).nodes.Keys == {[]}
    {
      LoneRoot(V4, rootV4, viewV4.nodes, viewV4.marks, viewV4.repr);
      LoneRoot(V6, rootV6, viewV6.nodes, viewV6.marks, viewV6.repr);
      rootV4.zero == null && rootV4.one == null && rootV6.zero == null && rootV6.one == null
    }

    /** NewCIDRTrie: two fresh, childless roots; no markers. */
    constructor ()
      ensures Valid() && fresh(viewV4.repr) && fresh(viewV6.repr)
      ensures Marks(V4) == map[] && Marks(V6) == map[]
      ensures IsBlank()
    {
      var r4 := new TrieNode<T>(V4, []);
      var r6 := new TrieNode<T>(V6, []);
      rootV4, rootV6 := r4, r6;
      viewV4 := TreeView(map[[] := r4], map[], {r4});
      viewV6 := TreeView(map[[] := r6], map[], {r6});
      new;
      assert Placed(V4, viewV4.nodes, viewV4.repr, []) && Placed(V6, viewV6.nodes, viewV6.repr, []);
      assert Wired(viewV4.nodes, viewV4.marks, []) && Wired(viewV6.nodes, viewV6.marks, []);
    }

    /**
     * InsertIpNet as written: walk the first prefixLen bits of the canonical
     * address from its family's root, creating missing nodes, and put
     * (net, data) on the node reached. The walk reads only bits the canonical
     * address has only when BitsInBounds(net).
     */
    method InsertIpNet(net: IPNet, data: T)
      requires Valid() && BitsInBounds(net)
      modifies this, viewV4.repr, viewV6.repr
      ensures Valid() && InsertedNet(net, data)
      ensures fresh(viewV4.repr - old(viewV4.repr)) && fresh(viewV6.repr - old(viewV6.repr))
      // a network below the root leaves a child on a root; a /0 only marks the root
      ensures Canonicalize(net.ip).Some? && net.prefixLen > 0 ==> !IsBlank()
      ensures net.prefixLen == 0 ==> IsBlank() == old(IsBlank())
    {
      var canon := Canonicalize(net.ip);
      if canon.None? {
        return;
      }
      var ip := canon.value.bytes;
      var f := canon.value.family;
      ghost var path := Bits(ip)[..net.prefixLen];
      assert EntriesOf(Other(f));
      InsertInto(f, ip, net.prefixLen, path, Entry(net, data));
      EntryAtItsPath(f, old(Marks(f)), path, Entry(net, data));
      assert EntriesOf(Other(f));
    }

    /**
     * InsertIpNet with the bound the walk needs: a network whose prefix is
     * longer than its canonical address (a mapped IPv4 address with an IPv6
     * prefix beyond /32, which InsertIpNet would walk past the end of) is
     * refused with PrefixTooLong and leaves the trie unchanged.
     */
    method InsertIpNetGuarded(net: IPNet, data: T) returns (err: Option<InsertError>)
      requires Valid()
      modifies this, viewV4.repr, viewV6.repr
      ensures Valid()
      ensures err == (if BitsInBounds(net) then None else Some(PrefixTooLong))
      ensures BitsInBounds(net) ==> InsertedNet(net, data)
      ensures !BitsInBounds(net) ==> View(V4) == old(View(V4)) && View(V6) == old(View(V6))
      ensures fresh(viewV4.repr - old(viewV4.repr)) && fresh(viewV6.repr - old(viewV6.repr))
    {
      var canon := Canonicalize(net.ip);
      if canon.Some? && net.prefixLen > 8 * |canon.value.bytes| {
        return Some(PrefixTooLong);
      }
      InsertIpNet(net, data);
      return None;
    }

    /**
     * Insert: the outcome of net.ParseCIDR on the literal is the parameter.
     * A parse error is returned; a missing network is no error and no change;
     * otherwise the network is inserted, or refused with PrefixTooLong when its
     * prefix does not fit its canonical address.
     */
    method Insert(parsed: Result<Option<IPNet>, ParseError>, data: T) returns (err: Option<InsertError>)
      requires Valid()
      modifies this, viewV4.repr, viewV6.repr
      ensures Valid()
      ensures err == if parsed.Failure? then Some(BadLiteral(parsed.error))
                     else if parsed.value.Some? && !BitsInBounds(parsed.value.value) then Some(PrefixTooLong)
                     else None
      ensures parsed.Success? && parsed.value.Some? && BitsInBounds(parsed.value.value) ==>
                InsertedNet(parsed.value.value, data)
      ensures !(parsed.Success? && parsed.value.Some? && BitsInBounds(parsed.value.value)) ==>
                View(V4) == old(View(V4)) && View(V6) == old(View(V6))
      ensures fresh(viewV4.repr - old(viewV4.repr)) && fresh(viewV6.repr - old(viewV6.repr))
    {
      if parsed.Failure? {
        return Some(BadLiteral(parsed.error));
      }
      if parsed.value.None? {
        return None;
      }
      err := InsertIpNetGuarded(parsed.value.value, data);
    }

    /** The walk and the marking in one family's tree; the other tree is left as it is. */
    method InsertInto(f: Family, ip: seq<Byte>, prefixLen: nat, ghost path: seq<bool>, e: Entry<T>)
      requires Trees()
      requires prefixLen <= 8 * |ip| <= Width(f) && path == Bits(ip)[..prefixLen]
      modifies this, View(f).repr
      ensures Trees()
      ensures Marks(f) == old(Marks(f))[path := e]
      ensures View(f).nodes.Keys == old(View(f).nodes.Keys) + PathPrefixes(path, |path|)
      ensures forall q :: q in old(View(f).nodes) ==> View(f).nodes[q] == old(View(f).nodes)[q]
      ensures path in old(View(f).nodes) ==> View(f).nodes.Keys == old(View(f).nodes.Keys)
      ensures View(Other(f)) == old(View(Other(f)))
      ensures fresh(View(f).repr - old(View(f).repr))
      ensures |path| > 0 ==> View(f).nodes.Keys != {[]}
      ensures |path| == 0 ==> View(f).nodes.Keys == old(View(f).nodes.Keys)
    {
      if path in View(f).nodes {
        PresentPathAddsNothing(f, Root(f), View(f).nodes, View(f).marks, View(f).repr, path);
      }
      // the two trees share no node, so the walk leaves the other tree as it was
      assert forall o :: o in View(Other(f)).repr ==> o !in View(f).repr;
      ghost var ns, rs := InsertPath(f, Root(f), View(f).nodes, View(f).marks, View(f).repr, ip, prefixLen, path, e);
      assert TreeOf(Other(f));
      SetView(f, TreeView(ns, View(f).marks[path := e], rs));
      assert TreeOf(Other(f));
      if |path| > 0 {
        NonEmptyPathLeavesRoot(path);
      } else {
        assert PathPrefixes(path, |path|) == {[]} by {
          assert path[..0] == [];
        }
      }
    }

    /** Proof only: record a family's new view, leaving the other's as it is. */
    ghost method SetView(f: Family, v: TreeView<T>)
      modifies this
      ensures View(f) == v && View(Other(f)) == old(View(Other(f)))
    {
      if f == V4 {
        viewV4 := v;
      } else {
        viewV6 := v;
      }
    }

    /** SearchBest: the longest match, searched from the root of the address's family. */
    method SearchBest(ip: seq<Byte>) returns (r: Option<Entry<T>>)
      requires Valid()
      ensures r == BestMatch(ip)
    {
      var canon := Canonicalize(ip);
      if canon.None? {
        return None;
      }
      var f := canon.value.family;
      assert TreeOf(f);
      r := SearchBestFrom(f, Root(f), View(f).nodes, View(f).marks, View(f).repr, canon.value.bytes);
    }

    /** SearchFast: the first (shortest) match, searched from the root of the address's family. */
    method SearchFast(ip: seq<Byte>) returns (r: Option<Entry<T>>)
      requires Valid()
      ensures r == FirstMatch(ip)
    {
      var canon := Canonicalize(ip);
      if canon.None? {
        return None;
      }
      var f := canon.value.family;
      assert TreeOf(f);
      r := SearchFastFrom(f, Root(f), View(f).nodes, View(f).marks, View(f).repr, canon.value.bytes);
    }

    /** A blank trie has no marker below a root, so neither search finds anything. */
    lemma BlankFindsNothing(ip: seq<Byte>)
      requires Valid() && IsBlank()
      ensures BestMatch(ip) == None && FirstMatch(ip) == None
    {
      match Canonicalize(ip)
      case None =>
      case Some(c) =>
        var m, bits := Marks(c.family), Bits(c.bytes);
        assert TreeOf(c.family);
        forall k | 0 < k <= |bits|
          ensures bits[..k] !in m
        {
          assert |bits[..k]| == k;
        }
        Lpm.LongestDepthUnmarked(m, bits, 0, |bits|);
    }

    /** An IPv4 address and its IPv4-mapped IPv6 form get the same answer from either search. */
    lemma MappedSearchesLikeV4(a: seq<Byte>)
      requires |a| == 4
      ensures To16(a).Some? && BestMatch(To16(a).value) == BestMatch(a) && FirstMatch(To16(a).value) == FirstMatch(a)
    {
      MappedRoutesLikeV4(a);
    }

    /** SearchBest's answer, when there is one, is a stored network below a root that covers ip. */
    lemma BestMatchCovers(ip: seq<Byte>)
      requires Valid()
      ensures BestMatch(ip).Some? ==> BestMatch(ip).value.cidr.prefixLen > 0 && Covers(BestMatch(ip).value.cidr, ip)
    {
      match Canonicalize(ip)
      case None =>
      case Some(c) =>
        var m, bits := Marks(c.family), Bits(c.bytes);
        var d := Lpm.LongestDepth(m, bits, |bits|);
        if d > 0 {
          assert EntriesOf(c.family);
          MarkedPrefixCovers(m, ip, d);
        }
    }

    /** No stored network below a root that covers ip has a longer prefix than SearchBest's answer. */
    lemma BestMatchIsLongest(ip: seq<Byte>, f: Family, p: seq<bool>)
      requires Valid() && p in Marks(f) && Marks(f)[p].cidr.prefixLen > 0 && Covers(Marks(f)[p].cidr, ip)
      ensures BestMatch(ip).Some? && Marks(f)[p].cidr.prefixLen <= BestMatch(ip).value.cidr.prefixLen
    {
      assert EntriesOf(f);
      CoverIsMarkedPrefix(f, Marks(f), ip, p);
      var c := Canonicalize(ip).value;
      var m, bits := Marks(f), Bits(c.bytes);
      Lpm.MarkedDepthBounds(m, bits, |p|);
      MarkedPrefixCovers(m, ip, Lpm.LongestDepth(m, bits, |bits|));
    }

    /** SearchFast's answer, when there is one, is a stored network below a root that covers ip. */
    lemma FirstMatchCovers(ip: seq<Byte>)
      requires Valid()
      ensures FirstMatch(ip).Some? ==> FirstMatch(ip).value.cidr.prefixLen > 0 && Covers(FirstMatch(ip).value.cidr, ip)
    {
      match Canonicalize(ip)
      case None =>
      case Some(c) =>
        var m, bits := Marks(c.family), Bits(c.bytes);
        var d := Lpm.FirstDepthFrom(m, bits, 0, |bits|);
        if d > 0 {
          assert EntriesOf(c.family);
          MarkedPrefixCovers(m, ip, d);
        }
    }

    /** No stored network below a root that covers ip has a shorter prefix than SearchFast's answer. */
    lemma FirstMatchIsShortest(ip: seq<Byte>, f: Family, p: seq<bool>)
      requires Valid() && p in Marks(f) && Marks(f)[p].cidr.prefixLen > 0 && Covers(Marks(f)[p].cidr, ip)
      ensures FirstMatch(ip).Some? && FirstMatch(ip).value.cidr.prefixLen <= Marks(f)[p].cidr.prefixLen
    {
      assert EntriesOf(f);
      CoverIsMarkedPrefix(f, Marks(f), ip, p);
      var c := Canonicalize(ip).value;
      var m, bits := Marks(f), Bits(c.bytes);
      Lpm.MarkedDepthBounds(m, bits, |p|);
      MarkedPrefixCovers(m, ip, Lpm.FirstDepthFrom(m, bits, 0, |bits|));
    }

    /** Whether some stored network below a root covers ip. */
    ghost predicate Covered(ip: seq<Byte>)
      reads this
    {
      exists f: Family, p :: p in Marks(f) && Marks(f)[p].cidr.prefixLen > 0 && Covers(Marks(f)[p].cidr, ip)
    }

    /** A match exists exactly when some stored network below a root covers ip. */
    lemma MatchIffCovered(ip: seq<Byte>)
      requires Valid()
      ensures BestMatch(ip).Some? <==> Covered(ip)
    {
      if BestMatch(ip).Some? {
        BestMatchCovers(ip);
        var c := Canonicalize(ip).value;
        var bits := Bits(c.bytes);
        var d := Lpm.LongestDepth(Marks(c.family), bits, |bits|);
        assert Marks(c.family)[bits[..d]] == BestMatch(ip).value;
      }
      if Covered(ip) {
        var f: Family, p :| p in Marks(f) && Marks(f)[p].cidr.prefixLen > 0 && Covers(Marks(f)[p].cidr, ip);
        BestMatchIsLongest(ip, f, p);
      }
    }

    /** Either search finds a marker for ip exactly when the other does. */
    lemma SearchesAgree(ip: seq<Byte>)
      ensures FirstMatch(ip).Some? <==> BestMatch(ip).Some?
    {
      match Canonicalize(ip)
      case None =>
      case Some(c) =>
        Lpm.FirstAgreesWithLongest(Marks(c.family), Bits(c.bytes));
    }

    /**
     * ContainsIP: whether SearchFast finds a marker, which is whether some
     * inserted network (other than a /0) covers ip.
     */
    method ContainsIP(ip: seq<Byte>) returns (b: bool)
      requires Valid()
      ensures b <==> BestMatch(ip).Some?
      ensures b <==> Covered(ip)
    {
      var n := SearchFast(ip);
      SearchesAgree(ip);
      MatchIffCovered(ip);
      b := n.Some?;
    }

    /**
     * Contains: ContainsIP on what net.ParseIP makes of the literal, given
     * here as its outcome; an unparsable literal is contained in nothing.
     */
    method Contains(ip: Option<seq<Byte>>) returns (b: bool)
      requires Valid()
      ensures b <==> ip.Some? && BestMatch(ip.value).Some?
      ensures b <==> ip.Some? && Covered(ip.value)
    {
      if ip.None? {
        return false;
      }
      b := ContainsIP(ip.value);
    }
  }

  /**
   * The deep match of the benchmark set-up: with 192.168.0.0/16,
   * 192.168.1.0/24 and 192.168.1.128/25 inserted (payloads 0, 1, 2), the
   * longest match for 192.168.1.150 is the /25 and the first one the /16.
   */
  lemma DeepMatchScenario()
    ensures var n16, n24, n25 := IPNet([192, 168, 0, 0], 16), IPNet([192, 168, 1, 0], 24), IPNet([192, 168, 1, 128], 25);
            var marks := map[][Bits(n16.ip)[..16] := Entry(n16, 0)][Bits(n24.ip)[..24] := Entry(n24, 1)]
                              [Bits(n25.ip)[..25] := Entry(n25, 2)];
            var bits := Bits([192, 168, 1, 150]);
            Lpm.Longest(marks, bits) == Some(Entry(n25, 2)) && Lpm.First(marks, bits) == Some(Entry(n16, 0))
  {
    var n16, n24, n25 := IPNet([192, 168, 0, 0], 16), IPNet([192, 168, 1, 0], 24), IPNet([192, 168, 1, 128], 25);
    var ip: seq<Byte> := [192, 168, 1, 150];
    var p16, p24, p25 := Bits(n16.ip)[..16], Bits(n24.ip)[..24], Bits(n25.ip)[..25];
    var bits := Bits(ip);
    SharedBytesShareBits(n16.ip, ip, 2);
    SharedBytesShareBits(n24.ip, ip, 3);
    SharedBytesShareBits(n25.ip, ip, 3);
    assert bits[..25] == p25 by {
      assert Bit(ip, 24) == Bit(n25.ip, 24);
      TakeStep(bits, 24);
      TakeStep(Bits(n25.ip), 24);
    }
    var others := map[][p16 := Entry(n16, 0)][p24 := Entry(n24, 1)];
    Lpm.InsertedFoundByLongest(others, p25, Entry(n25, 2), bits);
    var later := map[][p24 := Entry(n24, 1)][p25 := Entry(n25, 2)];
    assert others[p25 := Entry(n25, 2)] == later[p16 := Entry(n16, 0)];
    Lpm.InsertedFoundByFirst(later, p16, Entry(n16, 0), bits);
  }

  /** The same set-up run through the trie itself: both searches answer as the lemma says. */
  method DeepMatchSearches() returns (best: Option<Entry<int>>, first: Option<Entry<int>>)
    ensures best == Some(Entry(IPNet([192, 168, 1, 128], 25), 2))
    ensures first == Some(Entry(IPNet([192, 168, 0, 0], 16), 0))
  {
    var n16, n24, n25 := IPNet([192, 168, 0, 0], 16), IPNet([192, 168, 1, 0], 24), IPNet([192, 168, 1, 128], 25);
    var t := new CIDRTrie<int>();
    t.InsertIpNet(n16, 0);
    t.InsertIpNet(n24, 1);
    t.InsertIpNet(n25, 2);
    DeepMatchScenario();
    best := t.SearchBest([192, 168, 1, 150]);
    first := t.SearchFast([192, 168, 1, 150]);
  }
}
