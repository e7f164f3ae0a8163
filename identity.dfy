/** How the service names a document in the search index: the identifier
    used by the catalog refresh (`obtain_domain_name`) and the one used
    when a scraper hands over a single file (`add_link_path`). */
module Identity {
  import opened Wrappers
  import Text

  predicate IsAsciiLetter(c: char) {
    'a' <= c <= 'z' || 'A' <= c <= 'Z'
  }

  /** Characters `urllib.parse` accepts in a URL scheme. */
  predicate IsSchemeChar(c: char) {
    IsAsciiLetter(c) || '0' <= c <= '9' || c == '+' || c == '-' || c == '.'
  }

  /** Position of the first `c` in `s`, or `|s|` when there is none. */
  function IndexOf(s: string, c: char): (i: nat)
    ensures i <= |s|
    ensures i < |s| ==> s[i] == c
    ensures c !in s[..i]
    decreases |s|
  {
    if s == [] then 0
    else if s[0] == c then 0
    else
      var j := IndexOf(s[1..], c);
      assert s[..j + 1] == [s[0]] + s[1..][..j];
      1 + j
  }

  /** Position of the first `/`, `?` or `#`, where the network location ends. */
  function NetlocEnd(s: string): (i: nat)
    ensures i <= |s|
    ensures i < |s| ==> s[i] in "/?#"
    ensures forall k :: 0 <= k < i ==> s[k] !in "/?#"
    decreases |s|
  {
    if s == [] || s[0] in "/?#" then 0 else 1 + NetlocEnd(s[1..])
  }

  /** What `urlsplit` leaves after removing a scheme: the scheme is the text
      before the first `:` when it is non-empty, starts with an ASCII
      letter and uses only scheme characters. */
  function AfterScheme(url: string): (rest: string)
    ensures rest == url || (|rest| < |url| && url[|url| - |rest| - 1] == ':' && rest == url[|url| - |rest|..])
  {
    var i := IndexOf(url, ':');
    if 0 < i < |url| && IsAsciiLetter(url[0]) && forall k :: 0 <= k < i ==> IsSchemeChar(url[k])
    then url[i + 1..]
    else url
  }

  /** `urlparse(url).netloc`: the text after `//` up to the first `/`, `?`
      or `#`; empty when the remainder does not start with `//`. */
  function Netloc(url: string): (netloc: string)
    ensures '/' !in netloc && '?' !in netloc && '#' !in netloc
  {
    var rest := AfterScheme(url);
    if |rest| >= 2 && rest[..2] == "//" then
      var host := rest[2..];
      host[..NetlocEnd(host)]
    else ""
  }

  /** The host with one leading `www.` removed. */
  function StripWww(host: string): (h: string)
    ensures h == host || ("www." + h == host)
  {
    if |host| >= 4 && host[..4] == "www." then host[4..] else host
  }

  /** The short site token `obtain_domain_name` computes (and then drops):
      the netloc without `www.`, cut at its first `.`. It is the longest
      dot-free prefix of that host. */
  function DomainToken(link: string): (token: string)
    ensures '.' !in token
    ensures token <= StripWww(Netloc(link))
    ensures |token| < |StripWww(Netloc(link))| ==> StripWww(Netloc(link))[|token|] == '.'
  {
    var host := StripWww(Netloc(link));
    host[..IndexOf(host, '.')]
  }

  /** `obtain_domain_name(path)`: the domain token is computed but the link
      itself is returned, so the refresh keys each document by its raw link. */
  function ObtainDomainName(link: string): (id: string)
    ensures id == link
  {
    link
  }

  /** Identifiers never collide: distinct links get distinct ids (the domain
      token would, see `DomainTokenOf` and `DomainTokenIgnoresWww`). */
  lemma IdIsInjective(a: string, b: string)
    requires ObtainDomainName(a) == ObtainDomainName(b)
    ensures a == b
  {
  }

  /** The id is not stable under a `www.` prefix: these two links of one
      site are indexed under two ids. */
  lemma WwwPrefixChangesId()
    ensures ObtainDomainName("https://www.example.com/a") != ObtainDomainName("https://example.com/a")
  {
    assert "https://www.example.com/a"[8] != "https://example.com/a"[8];
  }

  /** `IndexOf` finds the first occurrence. */
  lemma {:induction false} IndexOfAt(pre: string, c: char, post: string)
    requires c !in pre
    ensures IndexOf(pre + [c] + post, c) == |pre|
    decreases |pre|
  {
    var s := pre + [c] + post;
    if pre != [] {
      assert s[1..] == pre[1..] + [c] + post;
      IndexOfAt(pre[1..], c, post);
    }
  }

  /** The first `.` of `name.rest` ends `name`. */
  lemma IndexOfFirstPiece(name: string, rest: string)
    requires '.' !in name && (rest == [] || rest[0] == '.')
    ensures IndexOf(name + rest, '.') == |name|
  {
    if rest != [] {
      assert name + rest == name + ['.'] + rest[1..];
      IndexOfAt(name, '.', rest[1..]);
    }
  }

  /** `NetlocEnd` stops at the first delimiter. */
  lemma {:induction false} NetlocEndAt(host: string, path: string)
    requires '/' !in host && '?' !in host && '#' !in host
    requires path == [] || path[0] in "/?#"
    ensures NetlocEnd(host + path) == |host|
    decreases |host|
  {
    if host != [] {
      assert (host + path)[1..] == host[1..] + path;
      NetlocEndAt(host[1..], path);
    } else {
      assert host + path == path;
    }
  }

  /** A valid scheme and its `:` are removed. */
  lemma AfterSchemeOf(scheme: string, rest: string)
    requires scheme != [] && IsAsciiLetter(scheme[0])
    requires forall k :: 0 <= k < |scheme| ==> IsSchemeChar(scheme[k])
    ensures AfterScheme(scheme + [':'] + rest) == rest
  {
    var url := scheme + [':'] + rest;
    assert ':' !in scheme by {
      forall k | 0 <= k < |scheme| ensures scheme[k] != ':' {
        assert IsSchemeChar(scheme[k]);
      }
    }
    IndexOfAt(scheme, ':', rest);
    assert url[..|scheme|] == scheme;
    assert url[|scheme| + 1..] == rest;
  }

  /** `scheme://host<path>` is the scheme, its `:`, then `//` and the rest. */
  lemma SchemeAndRest(scheme: string, host: string, path: string)
    ensures scheme + "://" + host + path == scheme + [':'] + ("//" + host + path)
    ensures ("//" + host + path)[..2] == "//" && ("//" + host + path)[2..] == host + path
  {
    assert scheme + "://" + host + path == scheme + [':'] + ("//" + host + path);
  }

  /** A URL `scheme://host<path>` has network location `host`. */
  lemma NetlocOf(scheme: string, host: string, path: string)
    requires scheme != [] && IsAsciiLetter(scheme[0])
    requires forall k :: 0 <= k < |scheme| ==> IsSchemeChar(scheme[k])
    requires '/' !in host && '?' !in host && '#' !in host
    requires path == [] || path[0] in "/?#"
    ensures Netloc(scheme + "://" + host + path) == host
  {
    var url := scheme + "://" + host + path;
    var rest := "//" + host + path;
    SchemeAndRest(scheme, host, path);
    assert AfterScheme(url) == rest by {
      AfterSchemeOf(scheme, rest);
    }
    assert NetlocEnd(host + path) == |host| by {
      NetlocEndAt(host, path);
    }
    assert Netloc(url) == (host + path)[..|host|];
    assert (host + path)[..|host|] == host;
  }

  /** The domain token is the same with or without a leading `www.`; the
      identifier actually used is not (`WwwPrefixChangesId`). */
  lemma DomainTokenIgnoresWww(scheme: string, host: string, path: string)
    requires scheme != [] && IsAsciiLetter(scheme[0])
    requires forall k :: 0 <= k < |scheme| ==> IsSchemeChar(scheme[k])
    requires '/' !in host && '?' !in host && '#' !in host
    requires !(|host| >= 4 && host[..4] == "www.")
    requires path == [] || path[0] in "/?#"
    ensures DomainToken(scheme + "://www." + host + path) == DomainToken(scheme + "://" + host + path)
  {
    var www := "www." + host;
    assert '/' !in www && '?' !in www && '#' !in www;
    assert scheme + "://www." + host + path == scheme + "://" + www + path;
    assert Netloc(scheme + "://" + www + path) == www by {
      NetlocOf(scheme, www, path);
    }
    assert Netloc(scheme + "://" + host + path) == host by {
      NetlocOf(scheme, host, path);
    }
    assert StripWww(www) == host by {
      assert www[..4] == "www." && www[4..] == host;
    }
    assert StripWww(host) == host;
  }

  /** The token of `scheme://name.rest<path>` is `name`: every page of one
      site would share it, which is why it could not serve as a per-document
      key (the link is used instead). */
  lemma DomainTokenOf(scheme: string, name: string, rest: string, path: string)
    requires scheme != [] && IsAsciiLetter(scheme[0])
    requires forall k :: 0 <= k < |scheme| ==> IsSchemeChar(scheme[k])
    requires '.' !in name && (rest == [] || rest[0] == '.')
    requires '/' !in name + rest && '?' !in name + rest && '#' !in name + rest
    requires !(|name + rest| >= 4 && (name + rest)[..4] == "www.")
    requires path == [] || path[0] in "/?#"
    ensures DomainToken(scheme + "://" + name + rest + path) == name
  {
    var host := name + rest;
    var url := scheme + "://" + name + rest + path;
    assert url == scheme + "://" + host + path;
    assert Netloc(url) == host by {
      NetlocOf(scheme, host, path);
    }
    assert StripWww(host) == host;
    IndexOfFirstPiece(name, rest);
    assert host[..|name|] == name;
  }

  /** The last `/`-separated segment of a path: `path.split("/")[-1]`. */
  function LastSegment(path: string): (segment: string)
    ensures '/' !in segment
  {
    var parts := Text.Split(path, '/');
    parts[|parts| - 1]
  }

  /** `path.split("/")[-1].split(".")[1]` from `add_link_path`: the second
      dot-separated piece of the file name; `None` where Python raises
      `IndexError` (a file name without a dot). */
  function FileNameId(path: string): (id: Option<string>)
    ensures id.None? <==> '.' !in LastSegment(path)
    ensures id.Some? ==> '.' !in id.value && '/' !in id.value
  {
    var segment := LastSegment(path);
    var pieces := Text.Split(segment, '.');
    Text.SplitSeveral(segment, '.');
    Text.SplitKeepsAbsent(segment, '.', '/');
    if |pieces| < 2 then None else Some(pieces[1])
  }

  /** A file `first.second<tail>` in any directory is named `second`, where
      the tail is empty or starts a further dot-separated piece. */
  lemma {:induction false} FileNameIdOf(dir: string, first: string, second: string, tail: string)
    requires '.' !in first && '.' !in second
    requires '/' !in first && '/' !in second && '/' !in tail
    requires tail == [] || tail[0] == '.'
    ensures FileNameId(dir + "/" + first + "." + second + tail) == Some(second)
  {
    var segment := first + "." + second + tail;
    assert '/' !in segment;
    var path := dir + "/" + segment;
    assert path == dir + ['/'] + segment;
    assert dir + "/" + first + "." + second + tail == path;
    Text.SplitConcat(dir, segment, '/');
    Text.SplitWithoutSep(segment, '/');
    assert LastSegment(path) == segment;
    Text.SplitWithoutSep(first, '.');
    if tail == [] {
      Text.SplitWithoutSep(second, '.');
      assert segment == first + ['.'] + second;
      Text.SplitConcat(first, second, '.');
      assert Text.Split(segment, '.') == [first, second];
    } else {
      var more := tail[1..];
      assert segment == first + ['.'] + (second + ['.'] + more);
      Text.SplitConcat(first, second + ['.'] + more, '.');
      Text.SplitWithoutSep(second, '.');
      Text.SplitConcat(second, more, '.');
    }
  }

  /** The example request of `add_link_path` yields the id `youtube`. */
  lemma DocstringExample()
    ensures FileNameId("/home/alex/Desktop/info288/proyecto/docs_indice_invertido/scraping/esclavo2/data/www.youtube.com_24.txt")
            == Some("youtube")
  {
    FileNameIdOf("/home/alex/Desktop/info288/proyecto/docs_indice_invertido/scraping/esclavo2/data", "www", "youtube", ".com_24.txt");
    assert "/home/alex/Desktop/info288/proyecto/docs_indice_invertido/scraping/esclavo2/data" + "/" + "www" + "." + "youtube" + ".com_24.txt"
        == "/home/alex/Desktop/info288/proyecto/docs_indice_invertido/scraping/esclavo2/data/www.youtube.com_24.txt";
  }

  /** A file name without a dot makes `add_link_path` fail. */
  lemma {:induction false} FileNameWithoutDot(dir: string, name: string)
    requires '.' !in name && '/' !in name
    ensures FileNameId(dir + "/" + name).None?
  {
    assert dir + "/" + name == dir + ['/'] + name;
    Text.SplitConcat(dir, name, '/');
    Text.SplitWithoutSep(name, '/');
    assert LastSegment(dir + "/" + name) == name;
  }
}
