/**
 * Recent searches (js/utils/storage.js): up to ten artifact pages, most
 * recent first, kept under one storage key, and the display name derived
 * from an artifact page address.
 */
module Storage {
  import opened Wrappers
  import opened Seqs

  datatype Search = Search(url: string, displayName: string)

  /** How many searches `addRecentSearch` keeps. */
  const MaxRecent: nat := 10

  function Min(a: nat, b: nat): nat
  {
    if a < b then a else b
  }

  predicate DistinctUrls(s: seq<Search>)
  {
    forall i, j :: 0 <= i < j < |s| ==> s[i].url != s[j].url
  }

  /** `findIndex(search => search.url === url)`: the first position holding `url`, or -1. */
  function FindIndex(s: seq<Search>, url: string): (i: int)
    ensures -1 <= i < |s|
    ensures i == -1 <==> forall j :: 0 <= j < |s| ==> s[j].url != url
    ensures i >= 0 ==> s[i].url == url && forall j :: 0 <= j < i ==> s[j].url != url
  {
    if s == [] then -1
    else if s[0].url == url then 0
    else
      var k := FindIndex(s[1..], url);
      assert forall j :: 1 <= j < |s| ==> s[j] == s[1..][j - 1];
      if k == -1 then -1 else k + 1
  }

  /** Where `splice(start, …)` starts on an array of length `len`: negative counts from the end. */
  function SpliceStart(len: nat, start: int): (k: nat)
    ensures k <= len
    ensures 0 <= start ==> k == if start < len then start else len
    ensures start < 0 ==> k == if len + start < 0 then 0 else len + start
  {
    if start < 0 then (if len + start < 0 then 0 else len + start)
    else if start < len then start
    else len
  }

  /** `splice(start, 1)`: the array after removing at most one element. */
  function SpliceOne<T>(s: seq<T>, start: int): (r: seq<T>)
  {
    var k := SpliceStart(|s|, start);
    if k < |s| then s[..k] + s[k + 1..] else s
  }

  /** What `addRecentSearch` leaves: the old entry for `url` out, the new one in front, at most ten kept. */
  function AddRecent(s: seq<Search>, url: string, displayName: string): (r: seq<Search>)
    ensures |r| >= 1 && r[0] == Search(url, displayName)
  {
    var existing := FindIndex(s, url);
    var rest := if existing != -1 then SpliceOne(s, existing) else s;
    var t := [Search(url, displayName)] + rest;
    if |t| > MaxRecent then t[..|t| - 1] else t
  }

  /**
   * The storage item `recentSearches`: `None` when nothing is stored. A
   * stored list is read back as written (its JSON encoding is not modelled).
   */
  class RecentSearchStore {
    var item: Option<seq<Search>>

    constructor ()
      ensures item == None
    {
      item := None;
    }

    /** `getRecentSearches`: the stored list, or none when nothing is stored. */
    function GetRecentSearches(): (r: seq<Search>)
      reads this
      ensures item.None? ==> r == []
      ensures item.Some? ==> r == item.value
    {
      match item
      case None => []
      case Some(s) => s
    }

    method SaveRecentSearches(searches: seq<Search>)
      modifies this
      ensures item == Some(searches)
    {
      item := Some(searches);
    }

    method AddRecentSearch(url: string, displayName: string) returns (searches: seq<Search>)
      modifies this
      ensures searches == AddRecent(old(GetRecentSearches()), url, displayName)
      ensures item == Some(searches)
    {
      searches := GetRecentSearches();
      var existingIndex := FindIndex(searches, url);
      if existingIndex != -1 {
        searches := SpliceOne(searches, existingIndex);
      }
      searches := [Search(url, displayName)] + searches;
      if |searches| > MaxRecent {
        searches := searches[..|searches| - 1];
      }
      SaveRecentSearches(searches);
    }

    method RemoveRecentSearch(index: int) returns (searches: seq<Search>)
      modifies this
      ensures searches == SpliceOne(old(GetRecentSearches()), index)
      ensures item == Some(searches)
    {
      searches := GetRecentSearches();
      searches := SpliceOne(searches, index);
      SaveRecentSearches(searches);
    }

    method ClearRecentSearches()
      modifies this
      ensures item == None
      ensures GetRecentSearches() == []
    {
      item := None;
    }
  }

  // ---------------------------------------------------------------------
  // Properties of the recent-search list

  /** The entries other than the one for `url`, in their stored order. */
  function Others(s: seq<Search>, url: string): seq<Search>
  {
    Filter((x: Search) => x.url != url, s)
  }

  /** With distinct addresses, taking out the entry for `url` leaves exactly the others. */
  lemma RemovedEntryLeavesOthers(s: seq<Search>, url: string)
    requires DistinctUrls(s)
    ensures (if FindIndex(s, url) != -1 then SpliceOne(s, FindIndex(s, url)) else s) == Others(s, url)
  {
    var p := (x: Search) => x.url != url;
    var i := FindIndex(s, url);
    if i == -1 {
      FilterKeepsAll(p, s);
    } else {
      FilterDropsOne(p, s, i);
      assert SpliceStart(|s|, i) == i;
    }
  }

  /**
   * The newest search comes first, then the others in their old order, cut
   * to nine: when the list is over the cap it is the oldest one that goes.
   */
  lemma AddRecentOrder(s: seq<Search>, url: string, displayName: string)
    requires DistinctUrls(s) && |s| <= MaxRecent
    ensures AddRecent(s, url, displayName) ==
      [Search(url, displayName)] + Others(s, url)[..Min(|Others(s, url)|, MaxRecent - 1)]
  {
    RemovedEntryLeavesOthers(s, url);
    DropLastOfCons(Search(url, displayName), Others(s, url), MaxRecent);
  }

  /** Dropping the last element of `[h] + o` when it is over `m` keeps the first `m - 1` of `o`. */
  lemma DropLastOfCons<T>(h: T, o: seq<T>, m: nat)
    requires 1 <= m && |o| <= m
    ensures (var t := [h] + o; if |t| > m then t[..|t| - 1] else t) == [h] + o[..Min(|o|, m - 1)]
  {
    var t := [h] + o;
    if |t| > m {
      assert t[..|t| - 1] == [h] + o[..|o| - 1];
    } else {
      assert o[..|o|] == o;
    }
  }

  /** Whatever the stored length, the result is the new entry and a prefix of the others. */
  lemma AddRecentPrefix(s: seq<Search>, url: string, displayName: string)
    requires DistinctUrls(s)
    ensures |AddRecent(s, url, displayName)| - 1 <= |Others(s, url)|
    ensures AddRecent(s, url, displayName) ==
      [Search(url, displayName)] + Others(s, url)[..|AddRecent(s, url, displayName)| - 1]
  {
    var h := Search(url, displayName);
    var rest := Others(s, url);
    var t := [h] + rest;
    var r := AddRecent(s, url, displayName);
    assert r == if |t| > MaxRecent then t[..|t| - 1] else t by {
      RemovedEntryLeavesOthers(s, url);
    }
    if |t| > MaxRecent {
      assert t[..|t| - 1] == [h] + rest[..|rest| - 1];
    } else {
      assert rest[..|rest|] == rest;
    }
  }

  /** Adding keeps the addresses distinct, and only the head carries `url`. */
  lemma AddRecentDistinct(s: seq<Search>, url: string, displayName: string)
    requires DistinctUrls(s)
    ensures DistinctUrls(AddRecent(s, url, displayName))
    ensures forall j :: 0 <= j < |AddRecent(s, url, displayName)| && AddRecent(s, url, displayName)[j].url == url ==> j == 0
  {
    var r := AddRecent(s, url, displayName);
    var others := Others(s, url);
    AddRecentPrefix(s, url, displayName);
    FilterInOrder((x: Search) => x.url != url, s);
    OthersDistinct(s, url);
    forall i, j | 0 <= i < j < |r| ensures r[i].url != r[j].url {
      assert r[j] == others[j - 1];
      assert r[j] in others;
      if i > 0 {
        assert r[i] == others[i - 1];
      }
    }
    forall j | 0 < j < |r| ensures r[j].url != url {
      assert r[j] == others[j - 1];
      assert r[j] in others;
    }
  }

  lemma {:induction false} OthersDistinct(s: seq<Search>, url: string)
    requires DistinctUrls(s)
    ensures DistinctUrls(Others(s, url))
  {
    FilterInOrder((x: Search) => x.url != url, s);
    SubseqKeepsDistinctUrls(Others(s, url), s);
  }

  lemma {:induction false} SubseqKeepsDistinctUrls(xs: seq<Search>, ys: seq<Search>)
    requires Subseq(xs, ys) && DistinctUrls(ys)
    ensures DistinctUrls(xs)
    decreases |ys|
  {
    if xs != [] {
      var xs', ys' := xs[..|xs| - 1], ys[..|ys| - 1];
      if xs[|xs| - 1] == ys[|ys| - 1] && Subseq(xs', ys') {
        SubseqKeepsDistinctUrls(xs', ys');
        SubseqMembers(xs', ys');
        forall i | 0 <= i < |xs'| ensures xs'[i].url != xs[|xs| - 1].url {
          assert xs'[i] in ys';
        }
      } else {
        SubseqKeepsDistinctUrls(xs, ys');
      }
    }
  }

  /** From a list of at most ten, adding grows it by one exactly when `url` is new, up to ten. */
  lemma AddRecentLength(s: seq<Search>, url: string, displayName: string)
    requires |s| <= MaxRecent
    ensures |AddRecent(s, url, displayName)| ==
      Min(|s| + (if FindIndex(s, url) == -1 then 1 else 0), MaxRecent)
  {
  }

  /** Removing an index inside the list drops exactly that entry and keeps the rest in order. */
  lemma RemoveInRange(s: seq<Search>, index: int)
    requires 0 <= index < |s|
    ensures |SpliceOne(s, index)| == |s| - 1
    ensures forall j :: 0 <= j < index ==> SpliceOne(s, index)[j] == s[j]
    ensures forall j :: index <= j < |s| - 1 ==> SpliceOne(s, index)[j] == s[j + 1]
  {
  }

  /** A negative index counts from the end; an index past the end removes nothing. */
  lemma RemoveOutOfRange(s: seq<Search>, index: int)
    ensures -|s| <= index < 0 ==> SpliceOne(s, index) == SpliceOne(s, |s| + index)
    ensures index < -|s| && s != [] ==> SpliceOne(s, index) == s[1..]
    ensures index >= |s| ==> SpliceOne(s, index) == s
  {
  }

  // ---------------------------------------------------------------------
  // getDisplayName

  const ArtifactPrefix := "https://mvnrepository.com/artifact/"

  /** The length of the run of characters other than `/` at the start of `s`. */
  function RunLength(s: string): (n: nat)
    ensures n <= |s|
  {
    if s == [] || s[0] == '/' then 0 else 1 + RunLength(s[1..])
  }

  predicate SlashFree(s: string)
  {
    forall k :: 0 <= k < |s| ==> s[k] != '/'
  }

  /** The run is as long as it can be: slash-free, and followed by a `/` or the end. */
  lemma {:induction false} RunLengthIsMaximal(s: string)
    ensures SlashFree(s[..RunLength(s)])
    ensures RunLength(s) == |s| || s[RunLength(s)] == '/'
  {
    if s != [] && s[0] != '/' {
      RunLengthIsMaximal(s[1..]);
      assert s[..RunLength(s)] == [s[0]] + s[1..][..RunLength(s[1..])];
    }
  }

  /** A slash-free piece followed by `/` or nothing is a whole run. */
  lemma {:induction false} RunOfPiece(w: string, rest: string)
    requires SlashFree(w) && (rest == [] || rest[0] == '/')
    ensures RunLength(w + rest) == |w|
  {
    if w != [] {
      assert (w + rest)[1..] == w[1..] + rest;
      RunOfPiece(w[1..], rest);
    } else {
      assert w + rest == rest;
    }
  }

  predicate StartsWith(s: string, prefix: string)
  {
    |prefix| <= |s| && s[..|prefix|] == prefix
  }

  // The expression of `getDisplayName` is /<prefix>([^/]+)\/([^/]+)\/([^/]+)/
  // with `ArtifactPrefix` as its literal part; the functions below take that
  // literal as the parameter `prefix`.

  /**
   * The expression tried at the start of `s`: the prefix, then three
   * non-empty runs of characters other than `/`, the first two each followed
   * by `/`; the second and third runs are the captured artifact and version.
   * Each `[^/]+` is greedy, and giving characters back never helps since a
   * `/` must follow.
   */
  function MatchHere(s: string, prefix: string): Option<(string, string)>
  {
    if !StartsWith(s, prefix) then None
    else
      var r1 := s[|prefix|..];
      var n1 := RunLength(r1);
      if n1 == 0 || n1 == |r1| then None
      else
        var r2 := r1[n1 + 1..];
        var n2 := RunLength(r2);
        if n2 == 0 || n2 == |r2| then None
        else
          var r3 := r2[n2 + 1..];
          var n3 := RunLength(r3);
          if n3 == 0 then None else Some((r2[..n2], r3[..n3]))
  }

  /** The leftmost match at or after `from`, as `String.prototype.match` finds it. */
  function FirstMatch(url: string, from: nat, prefix: string): (r: Option<(string, string)>)
    requires from <= |url|
    ensures r.Some? <==> exists q :: from <= q <= |url| && MatchHere(url[q..], prefix).Some?
    decreases |url| - from
  {
    match MatchHere(url[from..], prefix)
    case Some(g) => Some(g)
    case None => if from == |url| then None else FirstMatch(url, from + 1, prefix)
  }

  /** `artifact:version` from the first match inside `url`, else `url`. */
  function DisplayNameFor(url: string, prefix: string): string
  {
    match FirstMatch(url, 0, prefix)
    case None => url
    case Some((artifact, version)) => artifact + ":" + version
  }

  /** `getDisplayName`. */
  function GetDisplayName(url: string): string
  {
    DisplayNameFor(url, ArtifactPrefix)
  }

  /** A non-empty slash-free piece, a `/`, then `rest`: the run is the piece, and `rest` follows it. */
  lemma PieceThenSlash(w: string, rest: string)
    requires w != [] && SlashFree(w)
    ensures var s := w + ("/" + rest);
      RunLength(s) == |w| < |s| && s[..|w|] == w && s[|w| + 1..] == rest
  {
    RunOfPiece(w, "/" + rest);
    var s := w + ("/" + rest);
    assert s[|w| + 1..] == rest;
  }

  /** The expression matches `prefix + group/artifact/version + tail` at its start. */
  lemma MatchOfPieces(prefix: string, group: string, artifact: string, version: string, tail: string)
    requires group != [] && artifact != [] && version != []
    requires SlashFree(group) && SlashFree(artifact) && SlashFree(version)
    requires tail == [] || tail[0] == '/'
    ensures MatchHere(prefix + (group + ("/" + (artifact + ("/" + (version + tail))))), prefix) ==
      Some((artifact, version))
  {
    var r3 := version + tail;
    var r2 := artifact + ("/" + r3);
    var r1 := group + ("/" + r2);
    var s := prefix + r1;
    assert s[..|prefix|] == prefix && s[|prefix|..] == r1;
    PieceThenSlash(group, r2);
    PieceThenSlash(artifact, r3);
    RunOfPiece(version, tail);
    assert r3[..|version|] == version;
  }

  /** No match of the prefix starting inside `lead` of `lead + prefix` means none in any extension. */
  lemma PrefixMismatchExtends(lead: string, prefix: string, rest: string, q: nat)
    requires q < |lead| && !StartsWith((lead + prefix)[q..], prefix)
    ensures !StartsWith((lead + prefix + rest)[q..], prefix)
  {
    var w := lead + prefix;
    assert (w + rest)[q..][..|prefix|] == w[q..][..|prefix|];
  }

  /** When nothing matches before `p` and something matches at `p`, the search from `from` stops at `p`. */
  lemma {:induction false} FirstMatchSkips(url: string, from: nat, p: nat, prefix: string)
    requires from <= p <= |url|
    requires forall q :: from <= q < p ==> MatchHere(url[q..], prefix).None?
    requires MatchHere(url[p..], prefix).Some?
    ensures FirstMatch(url, from, prefix) == MatchHere(url[p..], prefix)
    decreases p - from
  {
    if from < p {
      FirstMatchSkips(url, from + 1, p, prefix);
    }
  }

  lemma DisplayNameForPieces(lead: string, prefix: string, group: string, artifact: string, version: string, tail: string)
    requires group != [] && artifact != [] && version != []
    requires SlashFree(group) && SlashFree(artifact) && SlashFree(version)
    requires tail == [] || tail[0] == '/'
    requires forall q :: 0 <= q < |lead| ==> !StartsWith((lead + prefix)[q..], prefix)
    ensures DisplayNameFor(lead + (prefix + (group + ("/" + (artifact + ("/" + (version + tail)))))), prefix) ==
      artifact + ":" + version
  {
    var rest := group + ("/" + (artifact + ("/" + (version + tail))));
    var url := lead + (prefix + rest);
    assert url[|lead|..] == prefix + rest;
    MatchOfPieces(prefix, group, artifact, version, tail);
    assert url == lead + prefix + rest;
    forall q | 0 <= q < |lead| ensures MatchHere(url[q..], prefix).None? {
      PrefixMismatchExtends(lead, prefix, rest, q);
    }
    FirstMatchSkips(url, 0, |lead|, prefix);
  }

  /**
   * An artifact page address `…/artifact/<group>/<artifact>/<version>`,
   * possibly followed by a further path, after text holding no artifact
   * prefix, is shown as `<artifact>:<version>`.
   */
  lemma DisplayNameOfArtifactUrl(lead: string, group: string, artifact: string, version: string, tail: string)
    requires group != [] && artifact != [] && version != []
    requires SlashFree(group) && SlashFree(artifact) && SlashFree(version)
    requires tail == [] || tail[0] == '/'
    requires forall q :: 0 <= q < |lead| ==> !StartsWith((lead + ArtifactPrefix)[q..], ArtifactPrefix)
    ensures GetDisplayName(lead + ArtifactPrefix + group + "/" + artifact + "/" + version + tail) == artifact + ":" + version
  {
    DisplayNameForPieces(lead, ArtifactPrefix, group, artifact, version, tail);
    Regroup(lead, ArtifactPrefix, group, "/", artifact, version, tail);
  }

  lemma Regroup(a: string, b: string, c: string, sep: string, d: string, e: string, f: string)
    ensures a + b + c + sep + d + sep + e + f == a + (b + (c + (sep + (d + (sep + (e + f))))))
  {
  }

  /** An address the pattern matches at no position is shown as it is. */
  lemma DisplayNameWithoutArtifact(url: string)
    requires forall q :: 0 <= q <= |url| ==> MatchHere(url[q..], ArtifactPrefix).None?
    ensures GetDisplayName(url) == url
  {
  }
}
