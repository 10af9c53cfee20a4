/**
  Blocklist lookups of main.py: the sender-domain check (`is_suspicious_domain`)
  and the link check (`is_suspicious_link`). The blocklists, which main.py
  reads from text files on every call, are parameters here.
 */
module Blocklist {
  import opened Text

  /**
    The sender's domain, `sender.split('@')[-1]`: the text after the last `@`.
    It is a suffix of the sender with no `@` in it, preceded by `@` when the
    sender has one, and the whole sender otherwise.
   */
  function SenderDomain(sender: string): (d: string)
    ensures |d| <= |sender| && sender[|sender| - |d|..] == d
    ensures '@' !in d
    ensures '@' in sender ==> |d| < |sender| && sender[|sender| - |d| - 1] == '@'
    ensures '@' !in sender ==> d == sender
  {
    var d := Last(Split(sender, "@"));
    LastPiece(sender, "@");
    SplitPiecesFree(sender, "@");
    OccursChar(d, '@');
    OccursChar(sender, '@');
    if '@' in sender then
      assert OccursAt(sender, "@", |sender| - |d| - 1);
      assert sender[|sender| - |d| - 1..|sender| - |d|][0] == sender[|sender| - |d| - 1];
      d
    else
      d
  }

  /** The text after the last `@` is the only `@`-free suffix that follows an `@` or is the whole sender. */
  predicate AfterLastAt(sender: string, x: string)
  {
    '@' !in x && EndsWith(sender, x) && (|x| == |sender| || sender[|sender| - |x| - 1] == '@')
  }

  lemma SenderDomainUnique(sender: string, x: string)
    ensures AfterLastAt(sender, x) <==> x == SenderDomain(sender)
  {
    var d := SenderDomain(sender);
    if AfterLastAt(sender, x) {
      assert x == sender[|sender| - |x|..];
    }
  }

  /** `is_suspicious_domain`: exact membership of the sender's domain. */
  function IsSuspiciousDomain(sender: string, domains: seq<string>): (r: bool)
    ensures r <==> exists k | 0 <= k < |domains| :: AfterLastAt(sender, domains[k])
  {
    forall k | 0 <= k < |domains| ensures AfterLastAt(sender, domains[k]) <==> domains[k] == SenderDomain(sender) {
      SenderDomainUnique(sender, domains[k]);
    }
    SenderDomain(sender) in domains
  }

  /**
    The host of a link: `link.split('//')[-1].split('/')[0]`. It holds no `/`,
    and in a link without `//` it is everything before the first `/`.
   */
  function Host(link: string): (h: string)
    ensures '/' !in h && |h| <= |link|
    ensures !Occurs(link, "//") ==> link[..|h|] == h && (|h| == |link| || link[|h|] == '/')
  {
    var tail := Last(Split(link, "//"));
    var h := Split(tail, "/")[0];
    LastPiece(link, "//");
    FirstPiece(tail, "/");
    OccursChar(h, '/');
    if |h| < |tail| then
      assert OccursAt(tail, "/", |h|);
      assert tail[|h|..|h| + 1][0] == tail[|h|];
      h
    else
      h
  }

  /**
    `domain == entry or domain.endswith('.' + entry)`: the host is the entry
    itself, or ends with it right after a dot.
   */
  function MatchesEntry(host: string, entry: string): (r: bool)
    ensures r <==> (host == entry
                    || (|entry| < |host| && EndsWith(host, entry) && host[|host| - |entry| - 1] == '.'))
  {
    if |entry| < |host| then
      assert host[|host| - |entry| - 1..] == [host[|host| - |entry| - 1]] + host[|host| - |entry|..];
      host == entry || EndsWith(host, "." + entry)
    else
      host == entry || EndsWith(host, "." + entry)
  }

  /** The loop of `is_suspicious_link` over the blocklist entries. */
  function AnyEntryMatches(host: string, entries: seq<string>): (r: bool)
    ensures r <==> exists k | 0 <= k < |entries| :: MatchesEntry(host, entries[k])
  {
    if |entries| == 0 then false
    else if MatchesEntry(host, entries[0]) then true
    else
      assert forall k | 1 <= k < |entries| :: entries[k] == entries[1..][k - 1];
      AnyEntryMatches(host, entries[1..])
  }

  /** `is_suspicious_link`: the link's host equals an entry or is a subdomain of one. */
  function IsSuspiciousLink(link: string, blocklist: seq<string>): (r: bool)
    ensures r <==> exists k | 0 <= k < |blocklist| :: MatchesEntry(Host(link), blocklist[k])
  {
    AnyEntryMatches(Host(link), blocklist)
  }

  /** Whatever comes before it, a final `@d` yields the domain `d`. */
  lemma SenderDomainOf(user: string, d: string)
    requires '@' !in d
    ensures SenderDomain(user + "@" + d) == d
  {
    var s := user + "@" + d;
    var r := SenderDomain(s);
    assert s[|user|] == '@';
    assert |r| == |d|;
    assert r == s[|s| - |d|..] == d;
  }

  /** A subdomain of a blocked sender domain is not blocked: membership is exact. */
  lemma SenderSubdomainNotMatched(user: string, sub: string, entry: string)
    requires '@' !in sub && '@' !in entry
    ensures !IsSuspiciousDomain(user + "@" + sub + "." + entry, [entry])
  {
    assert user + "@" + sub + "." + entry == user + "@" + (sub + "." + entry);
    SenderDomainOf(user, sub + "." + entry);
  }

  /** The host never contains `/`, and is what follows the last `//` up to the next `/`. */
  lemma HostShape(link: string)
    ensures var tail := Last(Split(link, "//"));
      var h := Host(link);
      && |tail| <= |link| && link[|link| - |tail|..] == tail
      && (!Occurs(link, "//") ==> tail == link)
      && (Occurs(link, "//") ==> |tail| + 2 <= |link| && OccursAt(link, "//", |link| - |tail| - 2))
      && !Occurs(tail, "//")
      && '/' !in h
      && |h| <= |tail| && tail[..|h|] == h
      && (|h| == |tail| || tail[|h|] == '/')
  {
    var tail := Last(Split(link, "//"));
    var h := Host(link);
    LastPiece(link, "//");
    SplitPiecesFree(link, "//");
    FirstPiece(tail, "/");
    OccursChar(h, '/');
    if |h| < |tail| {
      assert OccursAt(tail, "/", |h|);
      assert tail[|h|..|h| + 1][0] == tail[|h|];
    }
  }

  /** In `p + x`, no `sep` of length one or two starts inside a `/`-free `p` if `sep` begins with `/`. */
  lemma NoSlashStartsInside(p: string, x: string, sep: string)
    requires '/' !in p && 0 < |sep| && sep[0] == '/'
    ensures forall j :: 0 <= j < |p| ==> !OccursAt(p + x, sep, j)
  {
    forall j | 0 <= j < |p| ensures !OccursAt(p + x, sep, j) {
      assert (p + x)[j] == p[j];
    }
  }

  /** A `/`-free domain followed by a `//`-free path contains no `//`. */
  lemma NoDoubleSlash(d: string, path: string)
    requires '/' !in d && !Occurs(path, "//")
    ensures forall j :: !OccursAt(d + path, "//", j)
  {
    NoSlashStartsInside(d, path, "//");
    forall j | |d| <= j ensures !OccursAt(d + path, "//", j) {
      assert (d + path)[|d|..] == path;
      OccursAtDrop(d + path, |d|, "//", j - |d|);
    }
  }

  /** The shape of a path that may follow the host: empty, or starting with `/` and free of `//`. */
  predicate IsPath(path: string)
  {
    path == [] || (path[0] == '/' && !Occurs(path, "//"))
  }

  /** A `/`-free text before the first `//` is cut off as a piece of its own. */
  lemma SplitAfterSlashFree(p: string, t: string)
    requires '/' !in p
    ensures Split(p + "//" + t, "//") == [p] + Split(t, "//")
  {
    NoSlashStartsInside(p, "//" + t, "//");
    assert p + "//" + t == p + ("//" + t);
    SplitAtFirst(p, "//", t);
  }

  /** The `//`-free remainder `host + path` of a link is its last piece. */
  lemma RemainderIsWhole(host: string, path: string)
    requires '/' !in host && IsPath(path)
    ensures Split(host + path, "//") == [host + path]
  {
    if path == [] {
      assert !Occurs(path, "//");
    }
    NoDoubleSlash(host, path);
    SplitWhole(host + path, "//");
  }

  /** The first `/`-piece of `host + path` is the host. */
  lemma HostBeforePath(host: string, path: string)
    requires '/' !in host && IsPath(path)
    ensures Split(host + path, "/")[0] == host
  {
    if path == [] {
      assert host + path == host;
      OccursChar(host, '/');
      FindOccurs(host, "/");
    } else {
      NoSlashStartsInside(host, path, "/");
      assert path == "/" + path[1..];
      assert host + path == host + "/" + path[1..];
      SplitAtFirst(host, "/", path[1..]);
    }
  }

  /** The host is the first `/`-piece of the last `//`-piece. */
  lemma HostFromLastPiece(link: string, tail: string)
    requires Last(Split(link, "//")) == tail
    ensures Host(link) == Split(tail, "/")[0]
  {
  }

  /** The host of `scheme//host/path`, for a scheme and host without `/`. */
  lemma HostOfUrl(scheme: string, host: string, path: string)
    requires '/' !in scheme && '/' !in host && IsPath(path)
    ensures Host(scheme + "//" + host + path) == host
  {
    var rest := host + path;
    var s := scheme + "//" + host + path;
    assert s == scheme + "//" + rest;
    SplitAfterSlashFree(scheme, rest);
    RemainderIsWhole(host, path);
    LastOfCons(scheme, Split(rest, "//"));
    HostFromLastPiece(s, rest);
    HostBeforePath(host, path);
  }

  /**
    With two `//` in a link, the host is taken after the second one: the link
    `scheme//a//b/path` has host `b`, not `a`.
   */
  lemma HostAfterLastDoubleSlash(scheme: string, a: string, b: string, path: string)
    requires '/' !in scheme && '/' !in a && '/' !in b && IsPath(path)
    ensures Host(scheme + "//" + a + "//" + b + path) == b
  {
    var rest := b + path;
    var inner := a + "//" + rest;
    var s := scheme + "//" + a + "//" + b + path;
    assert s == scheme + "//" + inner;
    SplitAfterSlashFree(scheme, inner);
    SplitAfterSlashFree(a, rest);
    RemainderIsWhole(b, path);
    LastOfCons(scheme, Split(inner, "//"));
    LastOfCons(a, Split(rest, "//"));
    HostFromLastPiece(s, rest);
    HostBeforePath(b, path);
  }

  /**
    A third slash right after `//` leaves an empty host: `scheme///d/path` is
    matched only by an empty blocklist entry, whatever `d` is.
   */
  lemma TripleSlashHostIsEmpty(scheme: string, d: string, path: string, blocklist: seq<string>)
    requires '/' !in scheme && '/' !in d && |d| > 0 && IsPath(path)
    ensures Host(scheme + "///" + d + path) == ""
    ensures IsSuspiciousLink(scheme + "///" + d + path, blocklist) <==> "" in blocklist
  {
    TripleSlashHost(scheme, d, path);
    EmptyHostMatchesOnlyEmpty(blocklist);
  }

  lemma TripleSlashHost(scheme: string, d: string, path: string)
    requires '/' !in scheme && '/' !in d && |d| > 0 && IsPath(path)
    ensures Host(scheme + "///" + d + path) == ""
  {
    var rest := "/" + d + path;
    TripleSlashLastPiece(scheme, d, path);
    HostFromLastPiece(scheme + "///" + d + path, rest);
    FirstPiece(rest, "/");
    assert OccursAt(rest, "/", 0);
  }

  /** The empty host matches an entry only if that entry is empty. */
  lemma EmptyHostMatchesOnlyEmpty(blocklist: seq<string>)
    ensures (exists k | 0 <= k < |blocklist| :: MatchesEntry("", blocklist[k])) <==> "" in blocklist
  {
  }

  /** After a third slash, what follows the last `//` starts with `/`. */
  lemma TripleSlashLastPiece(scheme: string, d: string, path: string)
    requires '/' !in scheme && '/' !in d && |d| > 0 && IsPath(path)
    ensures Last(Split(scheme + "///" + d + path, "//")) == "/" + d + path
  {
    var rest := "/" + d + path;
    assert scheme + "///" + d + path == scheme + "//" + rest;
    SplitAfterSlashFree(scheme, rest);
    SlashThenRemainderIsWhole(d, path);
    LastOfCons(scheme, [rest]);
  }

  /** A single `/` before a non-empty `/`-free domain and a path creates no `//`. */
  lemma SlashThenRemainderIsWhole(d: string, path: string)
    requires '/' !in d && |d| > 0 && IsPath(path)
    ensures Split("/" + d + path, "//") == ["/" + d + path]
  {
    var rest := "/" + d + path;
    if path == [] {
      assert !Occurs(path, "//");
    }
    NoDoubleSlash(d, path);
    assert rest[1..] == d + path;
    forall j | 0 <= j ensures !OccursAt(rest, "//", j) {
      if j == 0 {
        assert rest[1] == d[0];
      } else {
        OccursAtShift(rest, "//", j - 1);
      }
    }
    SplitWhole(rest, "//");
  }

  /** Any subdomain of a blocked entry matches it. */
  lemma SubdomainMatches(sub: string, entry: string)
    ensures MatchesEntry(sub + "." + entry, entry)
  {
    assert (sub + "." + entry)[|sub|..] == "." + entry;
  }

  /** Without a dot boundary a longer host does not match: `xevil.com` is not `evil.com`. */
  lemma NoDotNoMatch(x: string, entry: string)
    requires |x| > 0 && x[|x| - 1] != '.'
    ensures !MatchesEntry(x + entry, entry)
  {
    var s := x + entry;
    assert s[|x| - 1] == x[|x| - 1];
    if |"." + entry| <= |s| {
      assert s[|s| - |"." + entry|..][0] == s[|x| - 1];
    }
  }

  /** A link `scheme//host/path` is blocked exactly when its host matches an entry. */
  lemma UrlBlockedIff(scheme: string, host: string, path: string, blocklist: seq<string>)
    requires '/' !in scheme && '/' !in host && IsPath(path)
    ensures IsSuspiciousLink(scheme + "//" + host + path, blocklist)
        <==> exists k | 0 <= k < |blocklist| :: MatchesEntry(host, blocklist[k])
  {
    HostOfUrl(scheme, host, path);
  }
}
