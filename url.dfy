/** Hostname extraction as the background page does it: by splitting the URL
    text, `url.split('//')[1].split('/')[0]`, with JavaScript's
    `String.prototype.split` semantics for a non-empty separator. */
module Url {
  import opened Options

  /** `sep` occurs in `s` starting at index `i`. */
  predicate OccursAt(s: string, sep: string, i: int) {
    0 <= i && i + |sep| <= |s| && s[i..i + |sep|] == sep
  }

  /** `i` is the first index at which `sep` occurs in `s`. */
  predicate FirstOccurrence(s: string, sep: string, i: int) {
    OccursAt(s, sep, i) && forall j :: 0 <= j < i ==> !OccursAt(s, sep, j)
  }

  /** The index of the first occurrence of `sep` in `s`, if any. */
  function IndexOf(s: string, sep: string): (r: Option<nat>)
    requires |sep| > 0
    ensures r.Some? ==> FirstOccurrence(s, sep, r.value)
    ensures r.None? ==> forall j :: !OccursAt(s, sep, j)
  {
    IndexFrom(s, sep, 0)
  }

  /** The first occurrence of `sep` in `s` at or after `i`, if any. */
  function IndexFrom(s: string, sep: string, i: nat): (r: Option<nat>)
    requires |sep| > 0
    requires forall j :: 0 <= j < i ==> !OccursAt(s, sep, j)
    ensures r.Some? ==> FirstOccurrence(s, sep, r.value)
    ensures r.None? ==> forall j :: !OccursAt(s, sep, j)
    decreases |s| - i
  {
    if |s| < i + |sep| then None
    else if s[i..i + |sep|] == sep then Some(i)
    else IndexFrom(s, sep, i + 1)
  }

  /** The first occurrence, once known, is what `IndexOf` finds. */
  lemma IndexOfIs(s: string, sep: string, i: nat)
    requires |sep| > 0 && FirstOccurrence(s, sep, i)
    ensures IndexOf(s, sep) == Some(i)
  {
  }

  /** `s.split(sep)`: the pieces between successive non-overlapping
      occurrences of `sep`, scanning from the left. */
  function Split(s: string, sep: string): (parts: seq<string>)
    requires |sep| > 0
    ensures |parts| >= 1
    decreases |s|
  {
    match IndexOf(s, sep)
    case None => [s]
    case Some(i) => [s[..i]] + Split(s[i + |sep|..], sep)
  }

  /** `getHostname(url)`: `None` where the source throws a TypeError
      (`url.split('//')` has no element at index 1). */
  function GetHostname(url: string): Option<string> {
    var parts := Split(url, "//");
    if |parts| < 2 then None else Some(Split(parts[1], "/")[0])
  }

  /** The first piece of a split is the text before the first separator. */
  lemma SplitHead(s: string, sep: string)
    requires |sep| > 0
    ensures IndexOf(s, sep).None? ==> Split(s, sep) == [s]
    ensures IndexOf(s, sep).Some? ==>
      |Split(s, sep)| >= 2 && Split(s, sep)[0] == s[..IndexOf(s, sep).value] &&
      Split(s, sep)[1] == Split(s[IndexOf(s, sep).value + |sep|..], sep)[0]
  {
  }

  /** `parts.join(sep)`. */
  function Join(parts: seq<string>, sep: string): string {
    if |parts| == 0 then []
    else if |parts| == 1 then parts[0]
    else parts[0] + sep + Join(parts[1..], sep)
  }

  /** Text before the first occurrence of `sep` does not contain `sep`. */
  lemma PrefixBeforeFirst(s: string, sep: string, i: nat)
    requires |sep| > 0 && FirstOccurrence(s, sep, i)
    ensures forall j :: !OccursAt(s[..i], sep, j)
  {
    forall j | OccursAt(s[..i], sep, j)
      ensures false
    {
      assert s[..i][j..j + |sep|] == s[j..j + |sep|];
      assert OccursAt(s, sep, j);
    }
  }

  /** Joining the pieces of a split after the first separator. */
  lemma JoinCons(head: string, tail: seq<string>, sep: string)
    requires |tail| >= 1
    ensures Join([head] + tail, sep) == head + sep + Join(tail, sep)
  {
    assert ([head] + tail)[1..] == tail;
  }

  /** `split` is undone by joining with the same separator, and no piece
      contains the separator. */
  lemma {:induction false} SplitJoin(s: string, sep: string)
    requires |sep| > 0
    ensures Join(Split(s, sep), sep) == s
    ensures forall k, j :: 0 <= k < |Split(s, sep)| ==> !OccursAt(Split(s, sep)[k], sep, j)
    decreases |s|
  {
    match IndexOf(s, sep)
    case None =>
    case Some(i) =>
      var rest := s[i + |sep|..];
      var tail := Split(rest, sep);
      SplitJoin(rest, sep);
      PrefixBeforeFirst(s, sep, i);
      assert Split(s, sep) == [s[..i]] + tail;
      JoinCons(s[..i], tail, sep);
      assert s == s[..i] + s[i..i + |sep|] + rest;
  }

  /** Cutting at the first `/` keeps the longest slash-free prefix. */
  lemma {:induction false} CutAtSlash(s: string, n: nat)
    requires n <= |s| && (forall k :: 0 <= k < n ==> s[k] != '/') && (n == |s| || s[n] == '/')
    ensures Split(s, "/")[0] == s[..n]
  {
    SplitHead(s, "/");
    forall k | 0 <= k < n
      ensures !OccursAt(s, "/", k)
    {
      assert s[k..k + 1][0] == s[k];
    }
    if n < |s| {
      assert s[n..n + 1] == "/";
      IndexOfIs(s, "/", n);
    } else {
      assert forall j :: !OccursAt(s, "/", j);
    }
  }

  /** Of the text after the first `//`, the first `//`-piece cut at its
      first `/` is the slash-free prefix of that text. */
  lemma {:induction false} FirstPieceCut(rest: string)
    ensures Split(Split(rest, "//")[0], "/")[0] == rest[..SlashFreePrefix(rest)]
  {
    var n := SlashFreePrefix(rest);
    SplitHead(rest, "//");
    match IndexOf(rest, "//")
    case None =>
      CutAtSlash(rest, n);
    case Some(j) =>
      assert rest[j] == "//"[0];
      var piece := rest[..j];
      assert piece[..n] == rest[..n];
      assert forall k :: 0 <= k < n ==> piece[k] == rest[k];
      CutAtSlash(piece, n);
  }

  /** The hostname is the slash-free text that follows the first `//`,
      ending at the next `/` or at the end of the URL; without a `//`
      there is no hostname. */
  lemma {:induction false} GetHostnameSpec(url: string)
    ensures GetHostname(url).None? <==> forall j :: !OccursAt(url, "//", j)
    ensures GetHostname(url).Some? ==>
      var i := IndexOf(url, "//").value;
      var h := GetHostname(url).value;
      FirstOccurrence(url, "//", i) &&
      i + 2 + |h| <= |url| && url[i + 2..i + 2 + |h|] == h && '/' !in h &&
      (i + 2 + |h| == |url| || url[i + 2 + |h|] == '/')
  {
    SplitHead(url, "//");
    match IndexOf(url, "//")
    case None =>
    case Some(i) =>
      var rest := url[i + 2..];
      FirstPieceCut(rest);
      var n := SlashFreePrefix(rest);
      assert GetHostname(url) == Some(rest[..n]);
      assert url[i + 2..i + 2 + n] == rest[..n];
      assert '/' !in rest[..n] by {
        forall k | 0 <= k < n
          ensures rest[..n][k] != '/'
        {
          assert rest[..n][k] == rest[k];
        }
      }
  }

  /** The length of the longest prefix of `s` free of `/`. */
  function SlashFreePrefix(s: string): (n: nat)
    ensures n <= |s| && (forall k :: 0 <= k < n ==> s[k] != '/') && (n == |s| || s[n] == '/')
  {
    if s == [] || s[0] == '/' then 0
    else
      var k := SlashFreePrefix(s[1..]);
      assert forall j :: 1 <= j < k + 1 ==> s[j] == s[1..][j - 1];
      k + 1
  }

  /** The slash-free prefix, once known, is what `SlashFreePrefix` measures. */
  lemma SlashFreePrefixIs(s: string, n: nat)
    requires n <= |s| && (forall k :: 0 <= k < n ==> s[k] != '/') && (n == |s| || s[n] == '/')
    ensures SlashFreePrefix(s) == n
  {
  }

  /** Conversely to `GetHostnameSpec`: the slash-free text after the first
      `//`, up to a `/` or the end of the URL, is the hostname. */
  lemma GetHostnameOf(url: string, i: nat, n: nat)
    requires FirstOccurrence(url, "//", i)
    requires i + 2 + n <= |url| && (forall k :: i + 2 <= k < i + 2 + n ==> url[k] != '/')
    requires i + 2 + n == |url| || url[i + 2 + n] == '/'
    ensures GetHostname(url) == Some(url[i + 2..i + 2 + n])
  {
    IndexOfIs(url, "//", i);
    SplitHead(url, "//");
    var rest := url[i + 2..];
    FirstPieceCut(rest);
    assert forall k :: 0 <= k < n ==> rest[k] == url[i + 2 + k];
    SlashFreePrefixIs(rest, n);
    assert rest[..n] == url[i + 2..i + 2 + n];
  }

  /** A URL built as scheme, `//`, host and path yields back its host. */
  lemma HostnameOfBuiltUrl(scheme: string, host: string, path: string)
    requires '/' !in scheme && '/' !in host
    requires path == [] || path[0] == '/'
    ensures GetHostname(scheme + "//" + host + path) == Some(host)
  {
    var url := scheme + "//" + host + path;
    var i := |scheme|;
    assert url[i..i + 2] == "//";
    forall j | 0 <= j < i
      ensures !OccursAt(url, "//", j)
    {
      assert url[j] == scheme[j];
      assert url[j..j + 2][0] == url[j];
    }
    forall k | i + 2 <= k < i + 2 + |host|
      ensures url[k] != '/'
    {
      assert url[k] == host[k - i - 2];
    }
    assert i + 2 + |host| < |url| ==> url[i + 2 + |host|] == path[0];
    GetHostnameOf(url, i, |host|);
    assert url[i + 2..i + 2 + |host|] == host;
  }
}
