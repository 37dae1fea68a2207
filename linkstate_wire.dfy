/**
 * The link-state advertisement wire format of the router:
 *
 *   ttl,timestamp,name,port,name1 weight1 port1,name2 weight2 port2,...
 *
 * how `lsp` writes it and how `read_lsp` and `flood` read it, with the
 * round trip between the two.
 */
module Wire {
  import opened Wrappers
  import opened Text

  /** A direct link: the neighbour's name, the edge weight and the neighbour's port. */
  datatype Link = Link(name: string, weight: int, port: int)

  /**
   * An advertisement as `read_lsp` takes it apart: the hop limit, the
   * timestamp field (passed on as text), the originator's name and port,
   * and the links it advertises, in message order.
   */
  datatype Advert = Advert(ttl: int, stamp: string, name: string, port: int, links: seq<Link>)

  /** The hop limit every router puts on its own advertisements. */
  const HOP_LIMIT: int := 3

  /**
   * The text of one link field, `name weight port`: split on spaces it
   * gives back the three parts when the name holds no space, and it holds
   * no comma when the name holds none.
   */
  function LinkField(l: Link): (r: string)
    ensures ' ' !in l.name ==> Split(r, ' ') == [l.name, IntToString(l.weight), IntToString(l.port)]
    ensures ',' !in l.name ==> ',' !in r
  {
    ThreePartSplit(l.name, IntToString(l.weight), IntToString(l.port));
    l.name + " " + IntToString(l.weight) + " " + IntToString(l.port)
  }

  /** Three parts joined by single spaces split back into them when the first holds no space. */
  lemma ThreePartSplit(a: string, b: string, c: string)
    requires ' ' !in b && ' ' !in c
    ensures ' ' !in a ==> Split(a + " " + b + " " + c, ' ') == [a, b, c]
  {
    if ' ' !in a {
      var fs := [a, b, c];
      assert Join(fs[2..], ' ') == c;
      assert Join(fs[1..], ' ') == b + " " + c;
      assert Join(fs, ' ') == a + " " + b + " " + c;
      SplitJoin(fs, ' ');
    }
  }

  function LinkFields(links: seq<Link>): (fs: seq<string>)
    ensures |fs| == |links| && forall i :: 0 <= i < |links| ==> fs[i] == LinkField(links[i])
  {
    seq(|links|, i requires 0 <= i < |links| => LinkField(links[i]))
  }

  /** The comma-separated fields of an advertisement with the given contents. */
  function AdvertFields(ttl: int, stamp: int, name: string, port: int, links: seq<Link>): seq<string> {
    [IntToString(ttl), IntToString(stamp), name, IntToString(port)] + LinkFields(links)
  }

  /**
   * The text of an advertisement with the given contents: its four header
   * fields come back from a split on commas when the originator's name holds
   * no comma, and all its fields do when no name holds one.
   */
  function AdvertText(ttl: int, stamp: int, name: string, port: int, links: seq<Link>): (r: string)
    ensures ',' !in name ==>
      var data := Split(r, ',');
      |data| >= 4 && data[..4] == [IntToString(ttl), IntToString(stamp), name, IntToString(port)]
    ensures ',' !in name && (forall i :: 0 <= i < |links| ==> ',' !in links[i].name) ==>
      Split(r, ',') == AdvertFields(ttl, stamp, name, port, links)
  {
    AdvertFieldsSplit(AdvertFields(ttl, stamp, name, port, links), name, links);
    Join(AdvertFields(ttl, stamp, name, port, links), ',')
  }

  /** What splitting the comma-join of an advertisement's fields gives back. */
  lemma AdvertFieldsSplit(fs: seq<string>, name: string, links: seq<Link>)
    requires |fs| == 4 + |links| && fs[2] == name && fs[4..] == LinkFields(links)
    requires ',' !in fs[0] && ',' !in fs[1] && ',' !in fs[3]
    ensures ',' !in name ==> |Split(Join(fs, ','), ',')| >= 4 && Split(Join(fs, ','), ',')[..4] == fs[..4]
    ensures ',' !in name && (forall i :: 0 <= i < |links| ==> ',' !in links[i].name) ==> Split(Join(fs, ','), ',') == fs
  {
    if ',' !in name {
      HeaderSplits(fs);
      if forall i :: 0 <= i < |links| ==> ',' !in links[i].name {
        forall i | 0 <= i < |fs|
          ensures ',' !in fs[i]
        {
          if i >= 4 {
            assert fs[i] == fs[4..][i - 4] == LinkField(links[i - 4]);
          }
        }
        SplitJoin(fs, ',');
      }
    }
  }

  /** Four comma-free leading fields come back first from a split of the join. */
  lemma HeaderSplits(fs: seq<string>)
    requires |fs| >= 4 && forall i :: 0 <= i < 4 ==> ',' !in fs[i]
    ensures |Split(Join(fs, ','), ',')| >= 4 && Split(Join(fs, ','), ',')[..4] == fs[..4]
  {
    if |fs| == 4 {
      SplitJoin(fs, ',');
    } else {
      SplitJoinHead(fs, ',', 4);
    }
  }

  /** `fs` with a separator after every field, as `lsp` builds it before dropping the last one. */
  function Terminated(fs: seq<string>, sep: char): string
    decreases |fs|
  {
    if |fs| == 0 then "" else fs[0] + [sep] + Terminated(fs[1..], sep)
  }

  lemma {:induction false} TerminatedAppend(fs: seq<string>, f: string, sep: char)
    ensures Terminated(fs + [f], sep) == Terminated(fs, sep) + f + [sep]
    decreases |fs|
  {
    if |fs| == 0 {
      assert Terminated([f], sep) == f + [sep] + Terminated([], sep);
    } else {
      assert (fs + [f])[1..] == fs[1..] + [f];
      TerminatedAppend(fs[1..], f, sep);
    }
  }

  /** Dropping the final separator of a terminated list of fields leaves their join. */
  lemma {:induction false} TerminatedIsJoin(fs: seq<string>, sep: char)
    requires |fs| >= 1
    ensures Terminated(fs, sep) == Join(fs, sep) + [sep]
    decreases |fs|
  {
    if |fs| > 1 {
      TerminatedIsJoin(fs[1..], sep);
    }
  }

  /** Some order listing each member of `s` exactly once. */
  ghost predicate Listing<T>(order: seq<T>, s: set<T>) {
    && (forall i, j :: 0 <= i < j < |order| ==> order[i] != order[j])
    && (forall i :: 0 <= i < |order| ==> order[i] in s)
    && (forall x :: x in s ==> x in order)
  }

  // ---------------------------------------------------------------------
  // Reading an advertisement.
  // ---------------------------------------------------------------------

  /** One link field split on spaces: the name, then the weight and port as integers. */
  function ParseLink(field: string): (r: Option<Link>)
    ensures var nei := Split(field, ' ');
      r.Some? <==> |nei| >= 3 && ParseInt(nei[1]).Some? && ParseInt(nei[2]).Some?
    ensures r.Some? ==> ' ' !in r.value.name
    ensures var nei := Split(field, ' '); r.Some? ==>
      nei[0] == r.value.name && ParseInt(nei[1]) == Some(r.value.weight) && ParseInt(nei[2]) == Some(r.value.port)
  {
    var nei := Split(field, ' ');
    if |nei| >= 3 && ParseInt(nei[1]).Some? && ParseInt(nei[2]).Some? then
      Some(Link(nei[0], ParseInt(nei[1]).value, ParseInt(nei[2]).value))
    else None
  }

  /** Every field read as a link, or `None` if one of them cannot be. */
  function ParseLinks(fields: seq<string>): (r: Option<seq<Link>>)
    ensures r.Some? <==> forall i :: 0 <= i < |fields| ==> ParseLink(fields[i]).Some?
    ensures r.Some? ==>
      |r.value| == |fields| && forall i :: 0 <= i < |fields| ==> ParseLink(fields[i]) == Some(r.value[i])
    decreases |fields|
  {
    if |fields| == 0 then Some([])
    else if ParseLink(fields[0]).Some? && ParseLinks(fields[1..]).Some? then
      Some([ParseLink(fields[0]).value] + ParseLinks(fields[1..]).value)
    else
      assert ParseLink(fields[0]).None? || ParseLink(fields[1..][0]).None? ||
             exists i :: 0 <= i < |fields[1..]| && ParseLink(fields[1..][i]).None?;
      None
  }

  /**
   * How `read_lsp` reads a message: split on commas; field 0 is the hop
   * limit and field 3 the originator's port, both integers; field 2 is the
   * originator's name; each field from 4 on is a link. `None` where the
   * Python code would raise.
   */
  function Parse(msg: string): (r: Option<Advert>)
    ensures var data := Split(msg, ',');
      r.Some? <==>
        && |data| >= 4 && ParseInt(data[0]).Some? && ParseInt(data[3]).Some?
        && forall i :: 4 <= i < |data| ==> ParseLink(data[i]).Some?
    ensures var data := Split(msg, ','); r.Some? ==>
      && ParseInt(data[0]) == Some(r.value.ttl) && data[1] == r.value.stamp && data[2] == r.value.name
      && ParseInt(data[3]) == Some(r.value.port) && |r.value.links| == |data| - 4
      && forall i :: 4 <= i < |data| ==> ParseLink(data[i]) == Some(r.value.links[i - 4])
  {
    var data := Split(msg, ',');
    assert |data| >= 4 ==> forall i :: 4 <= i < |data| ==> data[i] == data[4..][i - 4];
    if |data| >= 4 && ParseInt(data[0]).Some? && ParseInt(data[3]).Some? then
      match ParseLinks(data[4..])
      case Some(links) => Some(Advert(ParseInt(data[0]).value, data[1], data[2], ParseInt(data[3]).value, links))
      case None => None
    else None
  }

  /** Field `i` of a message that parses, split on spaces, reads as its link `i - 4`. */
  lemma LinkFieldAt(msg: string, i: int)
    requires Parse(msg).Some? && 4 <= i < |Split(msg, ',')|
    ensures var nei := Split(Split(msg, ',')[i], ' ');
      && |nei| >= 3 && ParseInt(nei[1]).Some? && ParseInt(nei[2]).Some?
      && Link(nei[0], ParseInt(nei[1]).value, ParseInt(nei[2]).value) == Parse(msg).value.links[i - 4]
  {
    assert ParseLink(Split(msg, ',')[i]) == Some(Parse(msg).value.links[i - 4]);
  }

  /** The timestamp field of a message read as the integer `flood` compares, if it is one. */
  function Stamp(msg: string): Option<int> {
    var data := Split(msg, ',');
    if |data| >= 2 then ParseInt(data[1]) else None
  }

  /** Names that survive the wire: no comma, and for link names no space either. */
  ghost predicate WireSafe(name: string, links: seq<Link>) {
    && ',' !in name
    && forall i :: 0 <= i < |links| ==> ',' !in links[i].name && ' ' !in links[i].name
  }

  lemma LinkRoundTrip(l: Link)
    requires ',' !in l.name && ' ' !in l.name
    ensures ParseLink(LinkField(l)) == Some(l)
    ensures ',' !in LinkField(l)
  {
    IntRoundTrip(l.weight);
    IntRoundTrip(l.port);
  }

  /**
   * Round trip of the wire format: reading the text of an advertisement
   * gives back its hop limit, timestamp, originator and links, in order.
   */
  lemma AdvertRoundTrip(ttl: int, stamp: int, name: string, port: int, links: seq<Link>)
    requires WireSafe(name, links)
    ensures Parse(AdvertText(ttl, stamp, name, port, links)) == Some(Advert(ttl, IntToString(stamp), name, port, links))
    ensures Stamp(AdvertText(ttl, stamp, name, port, links)) == Some(stamp)
  {
    var fs := AdvertFields(ttl, stamp, name, port, links);
    forall i | 0 <= i < |links| ensures ParseLink(LinkFields(links)[i]) == Some(links[i]) && ',' !in LinkFields(links)[i] {
      LinkRoundTrip(links[i]);
    }
    assert forall i :: 0 <= i < |fs| ==> ',' !in fs[i];
    SplitJoin(fs, ',');
    assert fs[4..] == LinkFields(links);
    IntRoundTrip(ttl);
    IntRoundTrip(stamp);
    IntRoundTrip(port);
    var r := ParseLinks(fs[4..]);
    assert r.Some?;
    assert r.value == links;
  }

  // ---------------------------------------------------------------------
  // The forwarded copy (read_lsp's return value).
  // ---------------------------------------------------------------------

  /** The message with field 0 replaced by the hop limit minus one, rejoined with commas. */
  function Forwarded(msg: string): (r: string)
    requires Parse(msg).Some?
    ensures Split(r, ',') == Split(msg, ',')[0 := IntToString(Parse(msg).value.ttl - 1)]
  {
    var data := Split(msg, ',');
    var data' := data[0 := IntToString(Parse(msg).value.ttl - 1)];
    assert forall i :: 0 <= i < |data'| ==> ',' !in data'[i];
    SplitJoin(data', ',');
    Join(data', ',')
  }

  /**
   * The forwarded copy reads as the same advertisement with the hop limit
   * one lower, and carries the same timestamp.
   */
  lemma ForwardedParse(msg: string)
    requires Parse(msg).Some?
    ensures Parse(Forwarded(msg)) == Some(Parse(msg).value.(ttl := Parse(msg).value.ttl - 1))
    ensures Stamp(Forwarded(msg)) == Stamp(msg)
  {
    var a := Parse(msg).value;
    var data := Split(msg, ',');
    var data' := data[0 := IntToString(a.ttl - 1)];
    IntRoundTrip(a.ttl - 1);
    assert data'[4..] == data[4..];
  }
}
