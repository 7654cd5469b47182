/**
 The URLs of the declared servers, and what searching a member list for one as text can find.
 An address with a colon is bracketed, so a host ends where its URL says it does.
 */
module PeerUrls {
  import opened Text
  import opened Growth

  const PEER_PORT := "2380"
  const CLIENT_PORT := "2379"

  function HostPort(host: string, port: string): string {
    if ':' in host then "[" + host + "]:" + port else host + ":" + port
  }

  function Url(host: string, port: string): string {
    "https://" + HostPort(host, port)
  }

  function PeerUrl(host: string): string {
    Url(host, PEER_PORT)
  }

  /** An address or a DNS name: no slash, no brackets of its own. */
  predicate IsHost(host: string) {
    '/' !in host && '[' !in host && ']' !in host
  }

  predicate IsPort(port: string) {
    forall i | 0 <= i < |port| :: '0' <= port[i] <= '9'
  }

  ghost predicate IsUrl(text: string) {
    exists host, port :: IsHost(host) && IsPort(port) && text == Url(host, port)
  }

  /** A row whose columns hold what they should, on any ports. */
  ghost predicate WellFormed(m: Member) {
    '/' !in m.name && IsUrl(m.peer) && (m.clients == "" || IsUrl(m.clients))
  }

  /** The URL is on this host, and its port starts with the digits of the peer port. */
  ghost predicate Extends(text: string, host: string) {
    exists port :: IsPort(port) && PEER_PORT <= port && text == Url(host, port)
  }

  // ---- reading a URL off the front of a text ---------------------------------------------

  predicate Opens(rest: string) {
    rest == "" || rest[0] == ','
  }

  lemma PortPrefix(port: string, rest: string)
    requires IsPort(port) && Opens(rest) && PEER_PORT <= port + rest
    ensures PEER_PORT <= port
  {
    var b := port + rest;
    assert forall j | 0 <= j < 4 :: b[j] == PEER_PORT[j];
    assert |port| < |b| ==> b[|port|] == ',';
    assert forall j | 0 <= j < |port| :: b[j] == port[j];
  }

  /** A host that ends at the first separator is the same in both texts, and the ports follow it. */
  lemma Delimited(pre: string, q: string, h: string, sep: string, a: string, b: string)
    requires sep != "" && sep[0] !in pre && sep[0] !in q && sep[0] !in h
    requires pre + q + sep + a <= pre + h + sep + b
    ensures q == h && a <= b
  {
    var s, t := pre + q + sep + a, pre + h + sep + b;
    IndexOfUnique(s, sep[0], |pre| + |q|);
    IndexOfUnique(t, sep[0], |pre| + |h|);
    IndexOfUnique(t, sep[0], |pre| + |q|);
    assert s == t[..|s|];
    assert q == s[|pre|..|pre| + |q|] == t[|pre|..|pre| + |q|] == h;
    var n := |pre| + |q| + |sep|;
    assert a == s[n..] == t[n..|s|] == b[..|a|];
  }

  /** What follows a URL inside a row cannot make it look like another host or another port. */
  lemma HostPortPrefix(q: string, h: string, port: string, rest: string)
    requires IsHost(q) && IsHost(h) && IsPort(port) && Opens(rest)
    requires HostPort(q, PEER_PORT) <= HostPort(h, port) + rest
    ensures q == h && PEER_PORT <= port
  {
    SameBrackets(q, h, port, rest);
    var pre, sep := if ':' in q then "[" else "", if ':' in q then "]:" else ":";
    Reassociate(q, PEER_PORT, "");
    Reassociate(h, port, rest);
    Delimited(pre, q, h, sep, PEER_PORT, port + rest);
    PortPrefix(port, rest);
  }

  lemma Reassociate(host: string, port: string, rest: string)
    ensures
      var pre, sep := if ':' in host then "[" else "", if ':' in host then "]:" else ":";
      HostPort(host, port) + rest == pre + host + sep + (port + rest)
    ensures rest == "" ==> HostPort(host, port) + rest == HostPort(host, port) && port + rest == port
  {
  }

  /** Only a bracketed host starts with a bracket. */
  lemma SameBrackets(q: string, h: string, port: string, rest: string)
    requires IsHost(q) && IsHost(h) && HostPort(q, PEER_PORT) <= HostPort(h, port) + rest
    ensures ':' in q <==> ':' in h
  {
    assert HostPort(q, PEER_PORT)[0] == (HostPort(h, port) + rest)[0] == HostPort(h, port)[0];
    FirstChar(q, PEER_PORT);
    FirstChar(h, port);
  }

  lemma FirstChar(host: string, port: string)
    requires IsHost(host)
    ensures HostPort(host, port)[0] == '[' <==> ':' in host
  {
    if ':' !in host {
      assert HostPort(host, port)[0] == if host == "" then ':' else host[0];
    }
  }

  // ---- where a URL can occur in a row -------------------------------------------------------

  /** The slashes of a URL are the two of its scheme. */
  lemma UrlSlashes(host: string, port: string, j: nat)
    requires IsHost(host) && IsPort(port) && j < |Url(host, port)|
    ensures |Url(host, port)| >= 9
    ensures Url(host, port)[j] == '/' <==> j == 6 || j == 7
  {
    var scheme := "https://";
    if j < 8 {
      assert Url(host, port)[j] == scheme[j];
    } else {
      assert Url(host, port)[j] == HostPort(host, port)[j - 8];
    }
  }

  /** Column starts of a row. */
  function PeerAt(m: Member): nat {
    |m.name| + 2
  }

  function ClientsAt(m: Member): nat {
    |m.name| + 2 + |m.peer| + 2
  }

  /** The character at `j` of a row, column by column. */
  lemma LineAt(m: Member, j: nat)
    requires j < |Line(m)|
    ensures
      var a, c := PeerAt(m), ClientsAt(m);
      Line(m)[j] ==
        if j < |m.name| then m.name[j]
        else if j < a then ", "[j - |m.name|]
        else if j < a + |m.peer| then m.peer[j - a]
        else if j < c then ", "[j - a - |m.peer|]
        else m.clients[j - c]
  {
  }

  lemma IsUrlSlashes(text: string, j: nat)
    requires IsUrl(text) && j < |text|
    ensures |text| >= 9 && (text[j] == '/' <==> j == 6 || j == 7)
  {
    var host, port :| IsHost(host) && IsPort(port) && text == Url(host, port);
    UrlSlashes(host, port, j);
  }

  lemma IsUrlLength(text: string)
    requires IsUrl(text)
    ensures |text| >= 9
  {
    var host, port :| IsHost(host) && IsPort(port) && text == Url(host, port);
    assert |Url(host, port)| == 8 + |HostPort(host, port)|;
  }

  lemma RowSlashes(m: Member, j: nat)
    requires WellFormed(m) && j < |Line(m)| && Line(m)[j] == '/'
    ensures j - PeerAt(m) == 6 || j - PeerAt(m) == 7 || j - ClientsAt(m) == 6 || j - ClientsAt(m) == 7
    ensures j >= ClientsAt(m) ==> m.clients != ""
    ensures |m.peer| >= 9
  {
    IsUrlLength(m.peer);
    LineAt(m, j);
    var a, c := PeerAt(m), ClientsAt(m);
    if a <= j < a + |m.peer| {
      IsUrlSlashes(m.peer, j - a);
    } else if j >= c {
      IsUrlSlashes(m.clients, j - c);
    }
  }

  lemma SchemeSlashes(host: string)
    ensures |PeerUrl(host)| >= 8 && PeerUrl(host)[6] == PeerUrl(host)[7] == '/'
  {
  }

  lemma OccursChar(hay: string, needle: string, i: nat, k: nat)
    requires OccursAt(hay, needle, i) && k < |needle|
    ensures i + k < |hay| && hay[i + k] == needle[k]
  {
    assert hay[i..i + |needle|][k] == hay[i + k];
  }

  lemma OccursPrefix(pre: string, text: string, needle: string)
    requires OccursAt(pre + text, needle, |pre|)
    ensures needle <= text
  {
    assert (pre + text)[|pre|..|pre| + |needle|] == text[..|needle|];
  }

  /** A peer URL occurs in a row only where a column starts. */
  lemma OccursAtColumn(m: Member, q: string, i: nat)
    requires WellFormed(m) && OccursAt(Line(m), PeerUrl(q), i)
    ensures i == PeerAt(m) || (i == ClientsAt(m) && m.clients != "")
  {
    SchemeSlashes(q);
    OccursChar(Line(m), PeerUrl(q), i, 6);
    OccursChar(Line(m), PeerUrl(q), i, 7);
    RowSlashes(m, i + 6);
    RowSlashes(m, i + 7);
  }

  /** A URL at the front of a text. */
  lemma UrlPrefix(q: string, h: string, port: string, rest: string)
    requires IsHost(q) && IsHost(h) && IsPort(port) && Opens(rest)
    requires PeerUrl(q) <= Url(h, port) + rest
    ensures q == h && PEER_PORT <= port
  {
    var a, b := PeerUrl(q), Url(h, port) + rest;
    var n := HostPort(q, PEER_PORT);
    assert n == a[8..] == b[8..|a|];
    assert b[8..] == HostPort(h, port) + rest;
    assert n == (HostPort(h, port) + rest)[..|n|];
    HostPortPrefix(q, h, port, rest);
  }

  lemma ColumnMentions(pre: string, column: string, rest: string, q: string)
    requires IsHost(q) && IsUrl(column) && Opens(rest) && OccursAt(pre + (column + rest), PeerUrl(q), |pre|)
    ensures Extends(column, q)
  {
    OccursPrefix(pre, column + rest, PeerUrl(q));
    FrontUrl(column, rest, q);
  }

  lemma FrontUrl(column: string, rest: string, q: string)
    requires IsHost(q) && IsUrl(column) && Opens(rest) && PeerUrl(q) <= column + rest
    ensures Extends(column, q)
  {
    var h, port :| IsHost(h) && IsPort(port) && column == Url(h, port);
    UrlPrefix(q, h, port, rest);
  }

  lemma ExtendsOccurs(pre: string, column: string, rest: string, q: string)
    requires Extends(column, q)
    ensures Contains(pre + (column + rest), PeerUrl(q))
  {
    var port :| IsPort(port) && PEER_PORT <= port && column == Url(q, port);
    LongerPort(q, port);
    PrefixOccurs(pre, PeerUrl(q), port[4..], rest);
  }

  lemma LongerPort(host: string, port: string)
    requires PEER_PORT <= port
    ensures Url(host, port) == PeerUrl(host) + port[4..]
  {
    assert port == PEER_PORT + port[4..];
  }

  lemma PrefixOccurs(pre: string, a: string, b: string, rest: string)
    ensures OccursAt(pre + ((a + b) + rest), a, |pre|)
  {
    assert (pre + ((a + b) + rest))[|pre|..|pre| + |a|] == a;
  }

  lemma LineParts(m: Member)
    ensures Line(m) == (m.name + ", ") + (m.peer + (", " + m.clients))
    ensures Line(m) == (m.name + ", " + m.peer + ", ") + (m.clients + "")
  {
  }

  /** The text search finds a server's URL in a row exactly when a URL there is its own or extends it. */
  lemma RowMentions(m: Member, q: string)
    requires WellFormed(m) && IsHost(q)
    ensures Contains(Line(m), PeerUrl(q)) <==> Extends(m.peer, q) || Extends(m.clients, q)
  {
    LineParts(m);
    if Contains(Line(m), PeerUrl(q)) {
      var i :| 0 <= i <= |Line(m)| && OccursAt(Line(m), PeerUrl(q), i);
      OccursAtColumn(m, q, i);
      if i == PeerAt(m) {
        ColumnMentions(m.name + ", ", m.peer, ", " + m.clients, q);
      } else {
        ColumnMentions(m.name + ", " + m.peer + ", ", m.clients, "", q);
      }
    }
    if Extends(m.peer, q) {
      ExtendsOccurs(m.name + ", ", m.peer, ", " + m.clients, q);
    }
    if Extends(m.clients, q) {
      ExtendsOccurs(m.name + ", " + m.peer + ", ", m.clients, "", q);
    }
  }

  // ---- lists ------------------------------------------------------------------------------------

  ghost predicate AllWellFormed(list: seq<Member>) {
    forall i | 0 <= i < |list| :: WellFormed(list[i])
  }

  /** A URL on this host, with a port that starts like the peer port, in a place where it is not the peer's own. */
  ghost predicate Stray(m: Member, host: string) {
    (Extends(m.peer, host) && m.peer != PeerUrl(host)) || Extends(m.clients, host)
  }

  ghost predicate NoStray(list: seq<Member>, host: string) {
    forall i | 0 <= i < |list| :: !Stray(list[i], host)
  }

  /** Searching the list finds the peer itself, or a stray URL, and nothing else. */
  lemma MentionsExactly(list: seq<Member>, host: string)
    requires AllWellFormed(list) && IsHost(host)
    ensures Mentions(list, PeerUrl(host)) <==> HasPeer(list, PeerUrl(host)) || !NoStray(list, host)
  {
    if Mentions(list, PeerUrl(host)) {
      var i :| 0 <= i < |list| && Contains(Line(list[i]), PeerUrl(host));
      RowMentions(list[i], host);
      assert list[i].peer == PeerUrl(host) || Stray(list[i], host);
    }
    if HasPeer(list, PeerUrl(host)) {
      PeerMentioned(list, PeerUrl(host));
    }
    if !NoStray(list, host) {
      var i :| 0 <= i < |list| && Stray(list[i], host);
      RowMentions(list[i], host);
    }
  }

  ghost predicate IsPeerUrl(text: string) {
    exists host :: IsHost(host) && text == PeerUrl(host)
  }

  lemma PeerUrlNotEmpty(text: string)
    requires IsPeerUrl(text)
    ensures text != ""
  {
    var host :| IsHost(host) && text == PeerUrl(host);
    SchemeSlashes(host);
  }

  /** Some URL of the list, other than this peer's own, has its host and a port that continues its port. */
  ghost predicate Obscured(list: seq<Member>, peer: string) {
    exists host :: IsHost(host) && peer == PeerUrl(host) && !NoStray(list, host)
  }

  lemma MentionsPeer(list: seq<Member>, peer: string)
    requires AllWellFormed(list) && IsPeerUrl(peer)
    ensures Mentions(list, peer) <==> HasPeer(list, peer) || Obscured(list, peer)
  {
    if Obscured(list, peer) {
      var host :| IsHost(host) && peer == PeerUrl(host) && !NoStray(list, host);
      MentionsExactly(list, host);
    } else {
      var host :| IsHost(host) && peer == PeerUrl(host);
      MentionsExactly(list, host);
    }
  }

  // ---- what the servers render --------------------------------------------------------------------

  ghost predicate IsClientUrl(text: string) {
    exists host :: IsHost(host) && text == Url(host, CLIENT_PORT)
  }

  /** A row of a member that one of the servers started, or that is yet to start. */
  ghost predicate Deployed(m: Member) {
    '/' !in m.name && IsPeerUrl(m.peer) && (m.clients == "" || IsClientUrl(m.clients))
  }

  ghost predicate AllDeployed(list: seq<Member>) {
    forall i | 0 <= i < |list| :: Deployed(list[i])
  }

  lemma DeployedRow(m: Member, host: string)
    requires Deployed(m) && IsHost(host)
    ensures WellFormed(m) && !Stray(m, host)
  {
    assert IsPort(PEER_PORT) && IsPort(CLIENT_PORT);
    assert PEER_PORT[3] != CLIENT_PORT[3];
    assert forall port :: Url(host, port) != "";
    var h :| IsHost(h) && m.peer == PeerUrl(h);
    assert IsUrl(m.peer);
    if Extends(m.peer, host) {
      UrlOnlyOnce(m.peer, host, h, PEER_PORT);
    }
    if m.clients != "" {
      var c :| IsHost(c) && m.clients == Url(c, CLIENT_PORT);
      assert IsUrl(m.clients);
      if Extends(m.clients, host) {
        UrlOnlyOnce(m.clients, host, c, CLIENT_PORT);
      }
    }
  }

  lemma UrlOnlyOnce(text: string, host: string, h: string, port: string)
    requires IsHost(host) && IsHost(h) && IsPort(port) && text == Url(h, port) && Extends(text, host)
    ensures h == host && PEER_PORT <= port
  {
    var p :| IsPort(p) && PEER_PORT <= p && text == Url(host, p);
    LongerPort(host, p);
    assert Url(h, port) + "" == Url(h, port);
    UrlPrefix(host, h, port, "");
  }

  /** On the lists of deployed servers no URL obscures another: the text search is the search for a peer. */
  lemma DeployedMentions(list: seq<Member>, peer: string)
    requires AllDeployed(list) && IsPeerUrl(peer)
    ensures AllWellFormed(list) && !Obscured(list, peer)
    ensures Mentions(list, peer) <==> HasPeer(list, peer)
  {
    forall i, host | 0 <= i < |list| && IsHost(host)
      ensures WellFormed(list[i]) && !Stray(list[i], host)
    {
      DeployedRow(list[i], host);
    }
    assert IsHost("");
    MentionsPeer(list, peer);
  }
}
