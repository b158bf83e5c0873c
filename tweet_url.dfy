/** `parse_tweet_url` (scripts/monitor.py): the handle and the status id of the leftmost
    match of `(?:x\.com|twitter\.com)/(\w+)/status/(\d+)` in a URL. */
module TweetUrl {
  import opened Wrappers
  import opened Text

  const XHost := "x.com/"
  const TwitterHost := "twitter.com/"
  const StatusPath := "/status/"

  /** The message of the `ValueError` raised for a URL without a match. */
  function UnparsableMessage(url: string): string {
    "Cannot parse tweet URL: " + url
  }

  /** Where the handle starts when one of the two hosts, with its slash, occurs at `p`.
      The hosts start with different letters, so at most one of them occurs there. */
  function HandleStart(url: string, p: nat): (q: Option<nat>)
    ensures q.Some? ==> q.value <= |url|
  {
    if OccursAt(url, XHost, p) then Some(p + |XHost|)
    else if OccursAt(url, TwitterHost, p) then Some(p + |TwitterHost|)
    else None
  }

  /** The groups of a match whose handle starts at index `q`: the handle, then the status
      path, then the id. Both groups are greedy; `\w` excludes `/` and the id group ends
      the pattern, so a match takes the whole word run and the whole digit run. */
  function GroupsFrom(url: string, q: nat): Option<(string, string)>
    requires q <= |url|
  {
    var handle := Run(url, q, Word);
    var s := q + |handle|;
    if handle != [] && OccursAt(url, StatusPath, s) then
      var id := Run(url, s + |StatusPath|, Digit);
      if id != [] then Some((handle, id)) else None
    else None
  }

  /** The groups of a match starting at index `p`, if the pattern matches there. */
  function MatchAt(url: string, p: nat): Option<(string, string)> {
    match HandleStart(url, p)
    case None => None
    case Some(q) => GroupsFrom(url, q)
  }

  /** The match with the leftmost start at or after `p`. */
  function FirstMatchFrom(url: string, p: nat): Option<(string, string)>
    decreases |url| - p
  {
    if p >= |url| then None
    else if MatchAt(url, p).Some? then MatchAt(url, p)
    else FirstMatchFrom(url, p + 1)
  }

  /** `parse_tweet_url(url)`: the (handle, id) pair, or the message of the error raised. */
  function ParseTweetUrl(url: string): Result<(string, string), string> {
    match FirstMatchFrom(url, 0)
    case Some(m) => Success(m)
    case None => Failure(UnparsableMessage(url))
  }

  // ---------------------------------------------------------------------------
  // Properties

  /** A match at `p` is the text `host + handle + "/status/" + id` found at `p`, with a
      non-empty word-character handle and a non-empty digit id. */
  lemma MatchAtShape(url: string, p: nat)
    requires MatchAt(url, p).Some?
    ensures var m := MatchAt(url, p).value;
      && m.0 != [] && AllWordChars(m.0)
      && m.1 != [] && AllDigits(m.1)
      && (|| OccursAt(url, XHost + m.0 + StatusPath + m.1, p)
          || OccursAt(url, TwitterHost + m.0 + StatusPath + m.1, p))
  {
    var q := HandleStart(url, p).value;
    assert MatchAt(url, p) == GroupsFrom(url, q);
    GroupsFromSpec(url, q);
    var (handle, id) := GroupsFrom(url, q).value;
    var t := q + |handle| + |StatusPath|;
    RunSpec(url, q, Word);
    RunSpec(url, t, Digit);
    RunChars(url, q, Word);
    RunChars(url, t, Digit);
    GroupsShape(url, p, q, handle, id);
  }

  /** The groups found from `q` are the word run there and the digit run after the status
      path that follows it. */
  lemma GroupsFromSpec(url: string, q: nat)
    requires q <= |url| && GroupsFrom(url, q).Some?
    ensures var (handle, id) := GroupsFrom(url, q).value;
      && handle == Run(url, q, Word) && handle != []
      && OccursAt(url, StatusPath, q + |handle|)
      && id == Run(url, q + |handle| + |StatusPath|, Digit) && id != []
  {
  }

  /** A host at `p`, then the handle, the status path and the id one after the other,
      form one occurrence of the text of a match. */
  lemma GroupsShape(url: string, p: nat, q: nat, handle: string, id: string)
    requires HandleStart(url, p) == Some(q)
    requires q + |handle| <= |url| && url[q..q + |handle|] == handle
    requires OccursAt(url, StatusPath, q + |handle|)
    requires var t := q + |handle| + |StatusPath|; t + |id| <= |url| && url[t..t + |id|] == id
    ensures || OccursAt(url, XHost + handle + StatusPath + id, p)
            || OccursAt(url, TwitterHost + handle + StatusPath + id, p)
  {
    var host := if OccursAt(url, XHost, p) then XHost else TwitterHost;
    assert q == p + |host| && url[p..q] == host;
    OccursConcat(url, p, host, handle, id);
  }

  /** The four pieces of a match, found one after the other, form one occurrence. */
  lemma OccursConcat(url: string, p: nat, host: string, handle: string, id: string)
    requires var q := p + |host|; var s := q + |handle|; var t := s + |StatusPath|;
      && t + |id| <= |url|
      && url[p..q] == host && url[q..s] == handle && url[s..t] == StatusPath
      && url[t..t + |id|] == id
    ensures OccursAt(url, host + handle + StatusPath + id, p)
  {
    var q := p + |host|;
    var s := q + |handle|;
    var t := s + |StatusPath|;
    SliceSplit(url, p, q, t + |id|);
    SliceSplit(url, q, s, t + |id|);
    SliceSplit(url, s, t, t + |id|);
    assert host + (handle + (StatusPath + id)) == host + handle + StatusPath + id;
  }

  /** The scan from `p` finds nothing exactly when no index at or after `p` starts a
      match, and otherwise returns the match at the leftmost such index. */
  lemma {:induction false} FirstMatchFromSpec(url: string, p: nat)
    ensures var m := FirstMatchFrom(url, p);
      && (m.None? <==> forall p' :: p <= p' ==> MatchAt(url, p').None?)
      && (m.Some? ==> exists p' :: p <= p' && MatchAt(url, p') == m
                                 && forall p'' :: p <= p'' < p' ==> MatchAt(url, p'').None?)
    decreases |url| - p
  {
    if p >= |url| {
      forall p' | p <= p' ensures MatchAt(url, p').None? {
        NoMatchAtEnd(url, p');
      }
    } else if MatchAt(url, p).None? {
      FirstMatchFromSpec(url, p + 1);
      var m := FirstMatchFrom(url, p);
      if m.Some? {
        var p' :| p + 1 <= p' && MatchAt(url, p') == m
                 && forall p'' :: p + 1 <= p'' < p' ==> MatchAt(url, p'').None?;
        assert forall p'' :: p <= p'' < p' ==> MatchAt(url, p'').None?;
      }
    }
  }

  /** No match starts at the end of the URL or beyond it. */
  lemma NoMatchAtEnd(url: string, p: nat)
    requires |url| <= p
    ensures MatchAt(url, p).None?
  {
  }

  /** `parse_tweet_url` returns the groups of the leftmost match, whose handle is a
      non-empty run of word characters and whose id is a non-empty run of digits, and it
      raises exactly when no index of the URL starts a match. */
  lemma ParseTweetUrlSpec(url: string)
    ensures ParseTweetUrl(url).Failure? <==> forall p :: MatchAt(url, p).None?
    ensures ParseTweetUrl(url).Failure? ==> ParseTweetUrl(url).error == UnparsableMessage(url)
    ensures ParseTweetUrl(url).Success? ==>
      var (handle, id) := ParseTweetUrl(url).value;
      && handle != [] && AllWordChars(handle) && id != [] && AllDigits(id)
      && exists p :: 0 <= p && MatchAt(url, p) == Some((handle, id))
                     && forall p' :: 0 <= p' < p ==> MatchAt(url, p').None?
  {
    FirstMatchFromSpec(url, 0);
    if ParseTweetUrl(url).Success? {
      var p :| 0 <= p && MatchAt(url, p) == FirstMatchFrom(url, 0)
               && forall p' :: 0 <= p' < p ==> MatchAt(url, p').None?;
      MatchAtShape(url, p);
    }
  }

  /** The groups read back from a canonical status URL are the handle and id it was built
      from, whatever follows the id as long as it does not start with a digit (a query
      string, a `/photo/1` suffix, nothing). */
  lemma ParseCanonicalUrl(handle: string, id: string, rest: string, twitter: bool)
    requires handle != [] && AllWordChars(handle)
    requires id != [] && AllDigits(id)
    requires rest == [] || !IsDigit(rest[0])
    ensures var host := if twitter then TwitterHost else XHost;
      ParseTweetUrl("https://" + host + handle + StatusPath + id + rest) == Success((handle, id))
  {
    var host := if twitter then TwitterHost else XHost;
    var url := "https://" + host + handle + StatusPath + id + rest;
    CanonicalMatch("https://", host, handle, id, rest);
    NoMatchInScheme(url, host + handle + StatusPath + id + rest);
    FirstMatchAfterNone(url, 0, 8);
  }

  /** The scan from `p` returns the match at `k` when no index from `p` up to `k` starts
      one. */
  lemma {:induction false} FirstMatchAfterNone(url: string, p: nat, k: nat)
    requires p <= k && MatchAt(url, k).Some?
    requires forall p' :: p <= p' < k ==> MatchAt(url, p').None?
    ensures FirstMatchFrom(url, p) == MatchAt(url, k)
    decreases k - p
  {
    if |url| <= k {
      NoMatchAtEnd(url, k);
    } else if p < k {
      FirstMatchAfterNone(url, p + 1, k);
    }
  }

  /** The pattern matches right after the scheme of a canonical URL. */
  lemma CanonicalMatch(scheme: string, host: string, handle: string, id: string, rest: string)
    requires host == XHost || host == TwitterHost
    requires handle != [] && AllWordChars(handle)
    requires id != [] && AllDigits(id)
    requires rest == [] || !IsDigit(rest[0])
    ensures MatchAt(scheme + host + handle + StatusPath + id + rest, |scheme|) == Some((handle, id))
  {
    PiecesAt(scheme, host, handle, StatusPath, id, rest);
    MatchFromPieces(scheme + host + handle + StatusPath + id + rest, |scheme|, host, handle, id);
  }

  /** Where each of six concatenated strings sits in the concatenation. */
  lemma PiecesAt(a: string, b: string, c: string, d: string, e: string, f: string)
    ensures var u := a + b + c + d + e + f;
      var p := |a|; var q := p + |b|; var s := q + |c|; var t := s + |d|; var v := t + |e|;
      && v <= |u|
      && u[p..q] == b && u[q..s] == c && u[s..t] == d && u[t..v] == e
      && (v < |u| ==> f != [] && u[v] == f[0])
  {
    var u := a + b + c + d + e + f;
    assert u == a + (b + (c + (d + (e + f))));
  }

  /** At an occurrence of one of the hosts, the handle starts right after it. */
  lemma HostAt(url: string, p: nat, host: string)
    requires host == XHost || host == TwitterHost
    requires p + |host| <= |url| && url[p..p + |host|] == host
    ensures HandleStart(url, p) == Some(p + |host|)
  {
    OccursAtChar(url, XHost, p, 0);
    assert url[p] == url[p..p + |host|][0] == host[0];
  }

  /** The groups at `p` are `handle` and `id` when the URL holds a host, the handle, the
      status path and the id one after the other from `p`, and no digit follows the id. */
  lemma MatchFromPieces(url: string, p: nat, host: string, handle: string, id: string)
    requires host == XHost || host == TwitterHost
    requires handle != [] && AllWordChars(handle)
    requires id != [] && AllDigits(id)
    requires var q := p + |host|; var s := q + |handle|; var t := s + |StatusPath|;
      && t + |id| <= |url|
      && url[p..q] == host && url[q..s] == handle && url[s..t] == StatusPath
      && url[t..t + |id|] == id
      && (t + |id| == |url| || !IsDigit(url[t + |id|]))
    ensures MatchAt(url, p) == Some((handle, id))
  {
    HostAt(url, p, host);
    GroupsFromPieces(url, p + |host|, handle, id);
  }

  /** The groups from `q` are `handle` and `id` when the URL holds the handle, the status
      path and the id one after the other from `q`, and no digit follows the id. */
  lemma GroupsFromPieces(url: string, q: nat, handle: string, id: string)
    requires handle != [] && AllWordChars(handle)
    requires id != [] && AllDigits(id)
    requires var s := q + |handle|; var t := s + |StatusPath|;
      && t + |id| <= |url|
      && url[q..s] == handle && url[s..t] == StatusPath && url[t..t + |id|] == id
      && (t + |id| == |url| || !IsDigit(url[t + |id|]))
    ensures GroupsFrom(url, q) == Some((handle, id))
  {
    var s := q + |handle|;
    var t := s + |StatusPath|;
    assert !IsWordChar(url[s]) by {
      assert url[s] == url[s..t][0] == '/';
    }
    WordRunIs(url, q, handle);
    DigitRunIs(url, t, id);
  }

  /** No match starts inside the scheme `https://`. */
  lemma NoMatchInScheme(url: string, tail: string)
    requires url == "https://" + tail
    ensures forall p :: 0 <= p < 8 ==> MatchAt(url, p).None?
  {
    forall p | 0 <= p < 8 ensures HandleStart(url, p).None? {
      assert url[p] == "https://"[p];
      OccursAtChar(url, XHost, p, 0);
      OccursAtChar(url, TwitterHost, p, 0);
      if p < 7 {
        assert url[p + 1] == "https://"[p + 1];
        OccursAtChar(url, TwitterHost, p, 1);
      }
    }
  }
}
