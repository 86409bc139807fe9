/**
 * The URL of a remote address book, `prefix://host:port/base??scope` (the
 * shape of an LDAP URL of section 2 of RFC 4516, with an empty attribute
 * list), as the address book dialog builds it, and the way the dialog splits
 * an existing URL back into its parts: every ':', '/' and '?' becomes a space
 * and sscanf reads up to five whitespace-separated words of at most 255
 * bytes each. GTK's strings are UTF-8, so a character counts as the number
 * of bytes it takes in UTF-8.
 */
module BookUrl {
  import opened Wrappers

  /** The field width of each %255s conversion, in bytes. */
  const Width: nat := 255

  /** The number of bytes of c in UTF-8. */
  function Utf8Size(c: char): nat {
    if c < '\U{80}' then 1 else if c < '\U{800}' then 2 else if c < '\U{10000}' then 3 else 4
  }

  /** The number of bytes of s in UTF-8. */
  function Utf8Length(s: string): nat {
    if s == [] then 0 else Utf8Size(s[0]) + Utf8Length(s[1..])
  }

  /** isspace in the C locale. */
  predicate IsSpace(c: char) {
    c == ' ' || c == '\t' || c == '\n' || c == '\U{B}' || c == '\U{C}' || c == '\r'
  }

  /** Text that fits one field: at most one field wide in UTF-8 bytes, and
      free of separators and whitespace. */
  predicate Plain(x: string) {
    Utf8Length(x) <= Width && forall c <- x :: !IsSpace(c) && c != ':' && c != '/' && c != '?'
  }

  /** A URL part that survives the split unchanged: non-empty and plain. */
  predicate Clean(x: string) {
    0 < |x| && Plain(x)
  }

  /** A character below U+0080 takes one byte. */
  lemma {:induction false} AsciiLength(s: string)
    requires forall c <- s :: c < '\U{80}'
    ensures Utf8Length(s) == |s|
  {
    if s != [] {
      assert s[0] in s;
      assert forall c <- s[1..] :: c in s;
      AsciiLength(s[1..]);
    }
  }

  /** prefix://host:port/base??scope: the parts in order, with seven
      separator characters and no other. */
  function BuildUrl(prefix: string, host: string, port: string, base: string, scope: string): (u: string)
    ensures |u| == |prefix| + |host| + |port| + |base| + |scope| + 7
    ensures forall c <- u :: c in prefix || c in host || c in port || c in base || c in scope || c in ":/?"
  {
    prefix + "://" + host + ":" + port + "/" + base + "??" + scope
  }

  /** The scope written for the scope menu index: "sub" for Subtree (0),
      "one" otherwise; either is a clean part. */
  function ScopeName(index: int): (s: string)
    ensures s == "sub" || s == "one"
    ensures s == "sub" <==> index == 0
    ensures Clean(s)
  {
    AsciiLength("sub");
    AsciiLength("one");
    if index == 0 then "sub" else "one"
  }

  /** The scope menu index for a parsed scope: One Level (1) for "one",
      Subtree (0) for anything else. */
  function ScopeIndex(scope: string): (i: int)
    ensures i == 0 || i == 1
    ensures i == 1 <==> scope == "one"
  {
    if scope == "one" then 1 else 0
  }

  /** The scheme of a new remote book: "ldap" for the type menu's Remote LDAP
      entry (1), "ils" otherwise. */
  function NewPrefix(typeIndex: int): (p: string)
    ensures p == "ldap" || p == "ils"
    ensures p == "ldap" <==> typeIndex == 1
    ensures Clean(p) && p != "file"
  {
    AsciiLength("ldap");
    AsciiLength("ils");
    if typeIndex == 1 then "ldap" else "ils"
  }

  /** PString::Replace (c, " ", TRUE): every occurrence of c becomes a space. */
  function ReplaceAll(s: string, c: char): (r: string)
    ensures |r| == |s|
    ensures forall i :: 0 <= i < |s| ==> r[i] == if s[i] == c then ' ' else s[i]
  {
    seq(|s|, i requires 0 <= i < |s| => if s[i] == c then ' ' else s[i])
  }

  /** Every ':', '/' and '?' becomes a space; nothing else changes. */
  function Blank(s: string): (b: string)
    ensures |b| == |s|
    ensures forall i :: 0 <= i < |s| ==> b[i] == if s[i] in ":/?" then ' ' else s[i]
  {
    ReplaceAll(ReplaceAll(ReplaceAll(s, ':'), '/'), '?')
  }

  function SkipSpace(s: string): (r: string)
    ensures |r| <= |s|
    ensures r == [] || !IsSpace(r[0])
  {
    if s != [] && IsSpace(s[0]) then SkipSpace(s[1..]) else s
  }

  /** The characters one %s conversion of at most k bytes takes: it stops
      at whitespace, at the end, or before a character whose bytes would not
      fit. */
  function TokenUpTo(s: string, k: nat): (w: string)
    ensures |w| <= |s|
    ensures k >= 4 && s != [] && !IsSpace(s[0]) ==> w != []
  {
    if s == [] || IsSpace(s[0]) || Utf8Size(s[0]) > k then []
    else [s[0]] + TokenUpTo(s[1..], k - Utf8Size(s[0]))
  }

  /** The words sscanf stores for n consecutive %255s conversions. */
  function Scan(s: string, n: nat): (words: seq<string>)
    ensures |words| <= n
    decreases n
  {
    var t := SkipSpace(s);
    if n == 0 || t == [] then []
    else
      var w := TokenUpTo(t, Width);
      [w] + Scan(t[|w|..], n - 1)
  }

  lemma {:induction false} SkipSpaceSuffix(s: string)
    ensures SkipSpace(s) == s[|s| - |SkipSpace(s)|..]
  {
    if s != [] && IsSpace(s[0]) {
      SkipSpaceSuffix(s[1..]);
    }
  }

  lemma {:induction false} TokenPrefix(s: string, k: nat)
    ensures TokenUpTo(s, k) == s[..|TokenUpTo(s, k)|]
    ensures forall c <- TokenUpTo(s, k) :: !IsSpace(c)
  {
    if s != [] && !IsSpace(s[0]) && Utf8Size(s[0]) <= k {
      TokenPrefix(s[1..], k - Utf8Size(s[0]));
    }
  }

  /** A word a conversion may store from s: it fits the width, holds no
      whitespace and only characters of s. */
  predicate WordOf(w: string, s: string) {
    Utf8Length(w) <= Width && forall c <- w :: !IsSpace(c) && c in s
  }

  lemma WordOfWider(w: string, a: string, b: string)
    requires WordOf(w, a) && forall c <- a :: c in b
    ensures WordOf(w, b)
  {
  }

  /** Every word the scan stores fits the width, holds no whitespace and
      only characters of s. */
  lemma {:induction false} ScanWordsFit(s: string, n: nat)
    ensures forall i :: 0 <= i < |Scan(s, n)| ==> WordOf(Scan(s, n)[i], s)
    decreases n
  {
    var t := SkipSpace(s);
    if n > 0 && t != [] {
      var w := TokenUpTo(t, Width);
      var rest := t[|w|..];
      var tail := Scan(rest, n - 1);
      assert Scan(s, n) == [w] + tail;
      FirstWordOf(s);
      ScanWordsFit(rest, n - 1);
      forall i | 0 <= i < |tail| ensures WordOf(tail[i], s) {
        WordOfWider(tail[i], rest, s);
      }
    }
  }

  /** The first word is a word of s, and what follows it lies in s. */
  lemma FirstWordOf(s: string)
    ensures var t := SkipSpace(s);
            var w := TokenUpTo(t, Width);
            WordOf(w, s) && forall c <- t[|w|..] :: c in s
  {
    var t := SkipSpace(s);
    var w := TokenUpTo(t, Width);
    SkipSpaceSuffix(s);
    TokenFitsWidth(t, Width);
    TokenPrefix(t, Width);
    assert forall c <- t :: c in s;
    assert forall c <- w :: c in t;
  }

  /** The parts an address book dialog starts from; the buffers stay empty
      when sscanf does not reach them. */
  datatype UrlParts = UrlParts(prefix: string, host: string, port: string, base: string, scope: string)

  function WordOr(words: seq<string>, i: nat): string {
    if i < |words| then words[i] else ""
  }

  /** A word of the scan of a blanked string is plain. */
  lemma ScannedPlain(s: string, i: nat)
    ensures Plain(WordOr(Scan(Blank(s), 5), i))
  {
    var b := Blank(s);
    var w := Scan(b, 5);
    ScanWordsFit(b, 5);
    if i < |w| {
      forall c <- w[i] ensures c != ':' && c != '/' && c != '?' {
        assert c in b;
      }
    }
  }

  /** A URL is parsed only if it exists and does not start with "file:";
      every part read is plain, and a part not reached stays empty. */
  function ParseUrl(url: Option<string>): (p: UrlParts)
    ensures url.None? || "file:" <= url.value ==> p == UrlParts("", "", "", "", "")
    ensures Plain(p.prefix) && Plain(p.host) && Plain(p.port) && Plain(p.base) && Plain(p.scope)
  {
    if url.Some? && !("file:" <= url.value) then
      var w := Scan(Blank(url.value), 5);
      ScannedPlain(url.value, 0); ScannedPlain(url.value, 1); ScannedPlain(url.value, 2);
      ScannedPlain(url.value, 3); ScannedPlain(url.value, 4);
      UrlParts(WordOr(w, 0), WordOr(w, 1), WordOr(w, 2), WordOr(w, 3), WordOr(w, 4))
    else
      UrlParts("", "", "", "", "")
  }

  lemma {:induction false} ReplaceKeepsOthers(x: string, c: char)
    requires c !in x
    ensures ReplaceAll(x, c) == x
  {
  }

  lemma BlankClean(x: string)
    requires Clean(x)
    ensures Blank(x) == x
  {
    ReplaceKeepsOthers(x, ':');
    ReplaceKeepsOthers(x, '/');
    ReplaceKeepsOthers(x, '?');
  }

  /** The separators of a built URL become runs of spaces. */
  lemma BlankBuiltUrl(prefix: string, host: string, port: string, base: string, scope: string)
    requires Clean(prefix) && Clean(host) && Clean(port) && Clean(base) && Clean(scope)
    ensures Blank(BuildUrl(prefix, host, port, base, scope)) ==
            prefix + ("   " + (host + (" " + (port + (" " + (base + ("  " + scope)))))))
  {
    BlankClean(prefix); BlankClean(host); BlankClean(port); BlankClean(base); BlankClean(scope);
    var u := BuildUrl(prefix, host, port, base, scope);
    var r := prefix + ("   " + (host + (" " + (port + (" " + (base + ("  " + scope)))))));
    assert |Blank(u)| == |r|;
    forall i | 0 <= i < |u| ensures Blank(u)[i] == r[i] {
    }
  }

  lemma {:induction false} TokenOfWord(x: string, rest: string, k: nat)
    requires Utf8Length(x) <= k && forall c <- x :: !IsSpace(c)
    requires rest == [] || IsSpace(rest[0])
    ensures TokenUpTo(x + rest, k) == x
  {
    if x != [] {
      assert (x + rest)[0] == x[0];
      assert (x + rest)[1..] == x[1..] + rest;
      TokenOfWord(x[1..], rest, k - Utf8Size(x[0]));
    }
  }

  /** A conversion never takes more bytes than its width, so a word longer
      than 255 bytes is split across conversions. */
  lemma {:induction false} TokenFitsWidth(s: string, k: nat)
    ensures Utf8Length(TokenUpTo(s, k)) <= k
  {
    var w := TokenUpTo(s, k);
    if w != [] {
      TokenFitsWidth(s[1..], k - Utf8Size(s[0]));
      assert w[0] == s[0];
      assert w[1..] == TokenUpTo(s[1..], k - Utf8Size(s[0]));
    }
  }

  lemma {:induction false} SkipSpaces(sp: string, y: string)
    requires forall c <- sp :: IsSpace(c)
    requires y == [] || !IsSpace(y[0])
    ensures SkipSpace(sp + y) == y
  {
    if sp != [] {
      assert (sp + y)[1..] == sp[1..] + y;
      SkipSpaces(sp[1..], y);
    }
  }

  /** One conversion takes a clean word followed by a run of spaces. */
  lemma ScanWord(x: string, sp: string, y: string, n: nat)
    requires Clean(x) && n > 0
    requires sp != [] && forall c <- sp :: IsSpace(c)
    requires y == [] || !IsSpace(y[0])
    ensures Scan(x + (sp + y), n) == [x] + Scan(y, n - 1)
  {
    var rest := sp + y;
    var s := x + rest;
    assert x[0] in x;
    assert SkipSpace(s) == s;
    TokenOfWord(x, rest, Width);
    assert s[|x|..] == rest;
    assert Scan(s, n) == [x] + Scan(rest, n - 1);
    SkipSpaces(sp, y);
    assert SkipSpace(y) == y;
  }

  lemma ScanLastWord(x: string)
    requires Clean(x)
    ensures Scan(x, 1) == [x]
  {
    SkipSpaces([], x);
    assert [] + x == x;
    TokenOfWord(x, [], Width);
    assert x + [] == x;
    assert x[|x|..] == [];
  }

  /** A clean scheme other than "file" never makes the URL look like a file URL. */
  lemma NotFileUrl(prefix: string, rest: string)
    requires Clean(prefix) && prefix != "file"
    requires rest != [] && rest[0] == ':'
    ensures !("file:" <= prefix + rest)
  {
    var u := prefix + rest;
    if |prefix| < 4 {
      assert u[|prefix|] == ':';
      assert u[|prefix|] != "file:"[|prefix|];
    } else if |prefix| == 4 {
      assert u[..4] == prefix;
      assert "file:"[..4] == "file";
    } else {
      assert prefix[4] in prefix;
      assert u[4] != "file:"[4];
    }
  }

  lemma ScanTail2(base: string, scope: string)
    requires Clean(base) && Clean(scope)
    ensures Scan(base + ("  " + scope), 2) == [base, scope]
  {
    assert scope[0] in scope;
    ScanLastWord(scope);
    ScanWord(base, "  ", scope, 2);
  }

  lemma ScanTail3(port: string, base: string, scope: string)
    requires Clean(port) && Clean(base) && Clean(scope)
    ensures Scan(port + (" " + (base + ("  " + scope))), 3) == [port, base, scope]
  {
    assert base[0] in base;
    ScanTail2(base, scope);
    ScanWord(port, " ", base + ("  " + scope), 3);
  }

  lemma ScanTail4(host: string, port: string, base: string, scope: string)
    requires Clean(host) && Clean(port) && Clean(base) && Clean(scope)
    ensures Scan(host + (" " + (port + (" " + (base + ("  " + scope))))), 4) == [host, port, base, scope]
  {
    assert port[0] in port;
    ScanTail3(port, base, scope);
    ScanWord(host, " ", port + (" " + (base + ("  " + scope))), 4);
  }

  /** Five clean words separated by runs of spaces are read back as they are. */
  lemma ScanFiveWords(prefix: string, host: string, port: string, base: string, scope: string)
    requires Clean(prefix) && Clean(host) && Clean(port) && Clean(base) && Clean(scope)
    ensures Scan(prefix + ("   " + (host + (" " + (port + (" " + (base + ("  " + scope))))))), 5)
            == [prefix, host, port, base, scope]
  {
    assert host[0] in host;
    ScanTail4(host, port, base, scope);
    ScanWord(prefix, "   ", host + (" " + (port + (" " + (base + ("  " + scope))))), 5);
  }

  /** Round trip: the dialog splits a URL it built back into the parts it was
      built from, when every part is clean and the scheme is not "file". */
  lemma ParseBuiltUrl(prefix: string, host: string, port: string, base: string, scope: string)
    requires Clean(prefix) && Clean(host) && Clean(port) && Clean(base) && Clean(scope)
    requires prefix != "file"
    ensures ParseUrl(Some(BuildUrl(prefix, host, port, base, scope))) == UrlParts(prefix, host, port, base, scope)
  {
    var u := BuildUrl(prefix, host, port, base, scope);
    NotFileUrl(prefix, u[|prefix|..]);
    assert u == prefix + u[|prefix|..];
    BlankBuiltUrl(prefix, host, port, base, scope);
    ScanFiveWords(prefix, host, port, base, scope);
  }

  /** The scope menu index survives a build-and-parse. */
  lemma ScopeRoundTrip(index: int)
    ensures ScopeIndex(ScopeName(index)) == if index == 0 then 0 else 1
  {
  }

  /** A scope read from a URL survives an edit only if it is "one": any
      other scope, "sub", "base" or garbage, is shown on the Subtree entry
      and written back as "sub". */
  lemma EditRewritesScope(scope: string)
    ensures ScopeName(ScopeIndex(scope)) == if scope == "one" then "one" else "sub"
  {
  }
}
