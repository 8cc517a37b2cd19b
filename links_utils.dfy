/** `shorten`: the display form of a link, which drops the protocol and a
    leading `www.` and cuts the path once it grows past the domain's length
    plus 30. Lengths are JavaScript's `.length`, in UTF-16 code units. */
module LinkUtils {
  import opened Wrappers
  import opened Strings

  const MaxSegmentsLength: nat := 30

  /** `"/" + segment` for each segment, in order. */
  function Prefixed(segments: seq<string>): string {
    if segments == [] then "" else "/" + segments[0] + Prefixed(segments[1..])
  }

  /** The text the loop of `shorten` ends with, from the text built so far
      and the segments still to visit: each segment is appended as
      `/segment` until one would take the length past `limit`, and then
      `/...` is appended instead and the loop stops. */
  function AppendSegments(shortened: string, segments: seq<string>, limit: int): string
    decreases |segments|
  {
    if segments == [] then shortened
    else if Utf16Length(shortened) + Utf16Length(segments[0]) > limit then shortened + "/..."
    else AppendSegments(shortened + "/" + segments[0], segments[1..], limit)
  }

  /** `shorten(link)`. A link without `//` has no address, and reading
      `address.split` throws: that is the error. */
  function Shorten(link: string): Result<string, string>
  {
    var parts := Split(link, "//");
    if |parts| < 2 then Err("TypeError: address is undefined")
    else Ok(ShortenedAddress(parts[1]))
  }

  /** What `shorten` makes of the address, the text after the first `//`:
      the domain without its first `www.`, then the path segments the
      budget of the domain's length plus 30 allows. */
  function ShortenedAddress(address: string): string
  {
    var pieces := Split(address, "/");
    var domain := pieces[0];
    AppendSegments(ReplaceFirst(domain, "www.", ""), pieces[1..], Utf16Length(domain) + MaxSegmentsLength)
  }

  /** The loop of `shorten`, with its early exit. */
  method ShortenLink(link: string) returns (r: Result<string, string>)
    ensures r == Shorten(link)
  {
    var parts := Split(link, "//");
    if |parts| < 2 {
      return Err("TypeError: address is undefined");
    }
    var pieces := Split(parts[1], "/");
    var domain, segments := pieces[0], pieces[1..];
    var limit := Utf16Length(domain) + MaxSegmentsLength;
    var shortened := ReplaceFirst(domain, "www.", "");
    ghost var start := shortened;
    var i := 0;
    while i < |segments|
      invariant 0 <= i <= |segments|
      invariant AppendSegments(shortened, segments[i..], limit) == AppendSegments(start, segments, limit)
    {
      var segment := segments[i];
      if Utf16Length(shortened) + Utf16Length(segment) > limit {
        shortened := shortened + "/...";
        return Ok(shortened);
      }
      shortened := shortened + "/" + segment;
      assert segments[i..][1..] == segments[i + 1..];
      i := i + 1;
    }
    return Ok(shortened);
  }

  // --- properties ---

  /** The loop keeps the first `n` segments and stops there. */
  predicate StopsAfter(shortened: string, segments: seq<string>, limit: int, n: nat)
    requires n <= |segments|
  {
    var kept := shortened + Prefixed(segments[..n]);
    && Utf16Length(kept) <= limit + 1
    && AppendSegments(shortened, segments, limit) == kept + (if n < |segments| then "/..." else "")
    && (n < |segments| ==> Utf16Length(kept) + Utf16Length(segments[n]) > limit)
  }

  /** The result is the start text, some first segments each prefixed by
      `/`, and `/...` exactly when segments were left over. The kept part is
      at most `limit + 1` long, and the segment that stopped the loop would
      have taken it past `limit`. */
  lemma {:induction false} AppendSegmentsShape(shortened: string, segments: seq<string>, limit: int)
    requires Utf16Length(shortened) <= limit + 1
    ensures exists n :: 0 <= n <= |segments| && StopsAfter(shortened, segments, limit, n)
    decreases |segments|
  {
    if segments == [] || Utf16Length(shortened) + Utf16Length(segments[0]) > limit {
      StopsAtOnce(shortened, segments, limit);
    } else {
      var next := shortened + "/" + segments[0];
      var tail := segments[1..];
      AppendSlashSegment(shortened, segments[0]);
      AppendSegmentsShape(next, tail, limit);
      var m :| 0 <= m <= |tail| && StopsAfter(next, tail, limit, m);
      StopsOneLater(shortened, segments, limit, m);
    }
  }

  /** With no segments, or a first one over the budget, nothing is kept. */
  lemma StopsAtOnce(shortened: string, segments: seq<string>, limit: int)
    requires Utf16Length(shortened) <= limit + 1
    requires segments == [] || Utf16Length(shortened) + Utf16Length(segments[0]) > limit
    ensures StopsAfter(shortened, segments, limit, 0)
  {
    assert segments[..0] == [];
    assert shortened + Prefixed(segments[..0]) == shortened;
  }

  /** Appending `/segment` adds one code unit and the segment's length. */
  lemma AppendSlashSegment(shortened: string, segment: string)
    ensures Utf16Length(shortened + "/" + segment) == Utf16Length(shortened) + 1 + Utf16Length(segment)
  {
    Utf16LengthAppend(shortened, "/");
    Utf16LengthAppend(shortened + "/", segment);
  }

  /** Keeping the first segment and then `m` more is keeping `m + 1`. */
  lemma StopsOneLater(shortened: string, segments: seq<string>, limit: int, m: nat)
    requires segments != [] && Utf16Length(shortened) + Utf16Length(segments[0]) <= limit
    requires m <= |segments| - 1 && StopsAfter(shortened + "/" + segments[0], segments[1..], limit, m)
    ensures StopsAfter(shortened, segments, limit, m + 1)
  {
    KeptOneLater(shortened, segments, m);
    assert m < |segments| - 1 ==> segments[1..][m] == segments[m + 1];
  }

  /** The text kept after the first segment and `m` more. */
  lemma KeptOneLater(shortened: string, segments: seq<string>, m: nat)
    requires m < |segments|
    ensures shortened + "/" + segments[0] + Prefixed(segments[1..][..m]) == shortened + Prefixed(segments[..m + 1])
  {
    assert segments[..m + 1][1..] == segments[1..][..m];
    assert Prefixed(segments[..m + 1]) == "/" + segments[0] + Prefixed(segments[1..][..m]);
  }

  /** `shorten` fails exactly on links without `//`. */
  lemma ShortenFailsWithoutAddress(link: string)
    ensures Shorten(link).Err? <==> !Includes(link, "//")
  {
  }

  /** Removing the first `www.` never lengthens the domain. */
  lemma ReplaceWwwShortens(domain: string)
    ensures Utf16Length(ReplaceFirst(domain, "www.", "")) <= Utf16Length(domain)
  {
    match IndexOf(domain, "www.")
    case None =>
    case Some(i) =>
      assert domain == domain[..i] + domain[i..i + 4] + domain[i + 4..];
      assert ReplaceFirst(domain, "www.", "") == domain[..i] + domain[i + 4..];
      Utf16LengthAppend(domain[..i], domain[i..i + 4]);
      Utf16LengthAppend(domain[..i] + domain[i..i + 4], domain[i + 4..]);
      Utf16LengthAppend(domain[..i], domain[i + 4..]);
  }

  /** A shortened link starts with its domain, without the first `www.`;
      without `/...` it is at most 31 code units longer than the domain,
      and with it at most 35. */
  lemma ShortenBounds(link: string)
    requires Includes(link, "//")
    ensures Shorten(link).Ok?
    ensures var domain := Split(Split(link, "//")[1], "/")[0];
      var s := Shorten(link).value;
      && StartsWith(s, ReplaceFirst(domain, "www.", ""))
      && Utf16Length(s) <= Utf16Length(domain) + MaxSegmentsLength + 5
      && (!EndsWith(s, "/...") ==> Utf16Length(s) <= Utf16Length(domain) + MaxSegmentsLength + 1)
  {
    ShortenFailsWithoutAddress(link);
    ShortenedAddressBounds(Split(link, "//")[1]);
  }

  /** The bounds of `ShortenBounds`, for the address alone. */
  lemma ShortenedAddressBounds(address: string)
    ensures var domain := Split(address, "/")[0];
      var s := ShortenedAddress(address);
      && StartsWith(s, ReplaceFirst(domain, "www.", ""))
      && Utf16Length(s) <= Utf16Length(domain) + MaxSegmentsLength + 5
      && (!EndsWith(s, "/...") ==> Utf16Length(s) <= Utf16Length(domain) + MaxSegmentsLength + 1)
  {
    var pieces := Split(address, "/");
    var start := ReplaceFirst(pieces[0], "www.", "");
    var limit := Utf16Length(pieces[0]) + MaxSegmentsLength;
    assert ShortenedAddress(address) == AppendSegments(start, pieces[1..], limit);
    ReplaceWwwShortens(pieces[0]);
    AppendSegmentsBounds(start, pieces[1..], limit);
  }

  /** The loop's text starts with the start text; it is at most `limit + 1`
      code units long without `/...` and at most `limit + 5` with it. */
  lemma AppendSegmentsBounds(start: string, segments: seq<string>, limit: int)
    requires Utf16Length(start) <= limit + 1
    ensures var s := AppendSegments(start, segments, limit);
      && StartsWith(s, start)
      && Utf16Length(s) <= limit + 5
      && (!EndsWith(s, "/...") ==> Utf16Length(s) <= limit + 1)
  {
    AppendSegmentsShape(start, segments, limit);
    var n :| 0 <= n <= |segments| && StopsAfter(start, segments, limit, n);
    var kept := start + Prefixed(segments[..n]);
    var s := AppendSegments(start, segments, limit);
    assert kept[..|start|] == start;
    if n < |segments| {
      assert s == kept + "/...";
      assert s[..|kept|] == kept;
      Utf16LengthAppend(kept, "/...");
      EllipsisLength();
    } else {
      assert s == kept;
    }
  }

  /** `"/..."` is four code units long. */
  lemma EllipsisLength() ensures Utf16Length("/...") == 4
  {
    assert "/..." == ['/', '.', '.', '.'];
    Utf16LengthBmp("/...");
  }

  /** Only the address, the text after the protocol's `//`, decides the
      result: it is split on `/` into the domain and the path segments. */
  lemma ShortenAddress(protocol: string, address: string)
    requires '/' !in protocol
    requires IndexOf(address, "//") == None
    ensures Shorten(protocol + "//" + address) == Ok(ShortenedAddress(address))
  {
    SplitAfterPart(protocol, "//", address);
    assert Split(address, "//") == [address];
    assert Split(protocol + "//" + address, "//")[1] == address;
  }

  /** Whatever follows a second `//` is ignored. */
  lemma ShortenIgnoresSecondAddress(protocol: string, address: string, rest: string)
    requires '/' !in protocol
    requires IndexOf(address, "//") == None
    requires address != [] && address[|address| - 1] != '/'
    ensures Shorten(protocol + "//" + address + "//" + rest) == Shorten(protocol + "//" + address)
  {
    var tail := address + "//" + rest;
    FirstDoubleSlash(address, rest);
    assert protocol + "//" + address + "//" + rest == protocol + "//" + tail;
    SplitAfterPart(protocol, "//", tail);
    SplitAfterPart(protocol, "//", address);
  }

  /** The first `//` after an address without one that does not end in `/`
      is the one right after it. */
  lemma FirstDoubleSlash(address: string, rest: string)
    requires IndexOf(address, "//") == None
    requires address != [] && address[|address| - 1] != '/'
    ensures Split(address + "//" + rest, "//") == [address] + Split(rest, "//")
  {
    var tail := address + "//" + rest;
    assert OccursAt(tail, "//", |address|);
    forall j | 0 <= j < |address|
      ensures !OccursAt(tail, "//", j)
    {
      if j + 1 < |address| {
        assert tail[j..j + 2] == address[j..j + 2];
        assert !OccursAt(address, "//", j);
      } else {
        assert tail[j..j + 2][0] == tail[j] == address[j];
      }
    }
    assert IndexOf(tail, "//") == Some(|address|);
    assert tail[..|address|] == address;
    assert tail[|address| + 2..] == rest;
  }

  /** An address without a path is its domain without the first `www.`. */
  lemma ShortenDomainOnly(protocol: string, domain: string)
    requires '/' !in protocol
    requires IndexOf(domain, "//") == None && IndexOf(domain, "/") == None
    ensures Shorten(protocol + "//" + domain) == Ok(ReplaceFirst(domain, "www.", ""))
  {
    ShortenAddress(protocol, domain);
    assert Split(domain, "/") == [domain];
    assert [domain][1..] == [];
  }

  // --- examples ---
  // Each link is written as its protocol, `//` and its address, and each
  // address as its pieces around `/`, so that the proofs can split them.
  // The results hold for every protocol without `/`, `http:` and `https:`
  // among them.

  lemma NoSlashInLocalhost() ensures IndexOf("localhost:3000", "/") == None
  { IndexOfAbsent("localhost:3000", "/"); }
  lemma NoDoubleSlashInLocalhost() ensures IndexOf("localhost:3000", "//") == None
  { IndexOfAbsent("localhost:3000", "//"); }
  lemma NoWwwInLocalhost() ensures ReplaceFirst("localhost:3000", "www.", "") == "localhost:3000"
  { IndexOfAbsent("localhost:3000", "www."); }

  /** `http://localhost:3000` becomes `localhost:3000`. */
  lemma ShortenLocalhost(protocol: string)
    requires '/' !in protocol
    ensures Shorten(protocol + "//" + "localhost:3000") == Ok("localhost:3000")
  {
    NoDoubleSlashInLocalhost();
    NoSlashInLocalhost();
    ShortenDomainOnly(protocol, "localhost:3000");
    NoWwwInLocalhost();
  }

  lemma NoSlashInYoutube() ensures IndexOf("www.youtube.com", "/") == None
  { IndexOfAbsent("www.youtube.com", "/"); }
  lemma NoDoubleSlashInYoutube() ensures IndexOf("www.youtube.com", "//") == None
  { IndexOfAbsent("www.youtube.com", "//"); }
  lemma WwwInYoutube() ensures ReplaceFirst("www." + "youtube.com", "www.", "") == "youtube.com"
  {
    assert OccursAt("www." + "youtube.com", "www.", 0);
  }

  /** `https://www.youtube.com` becomes `youtube.com`. */
  lemma ShortenWww(protocol: string)
    requires '/' !in protocol
    ensures Shorten(protocol + "//" + ("www." + "youtube.com")) == Ok("youtube.com")
  {
    assert "www." + "youtube.com" == "www.youtube.com";
    NoDoubleSlashInYoutube();
    NoSlashInYoutube();
    ShortenDomainOnly(protocol, "www.youtube.com");
    WwwInYoutube();
  }

  lemma NoSlashInSearch() ensures IndexOf("videos?search=x", "/") == None
  { IndexOfAbsent("videos?search=x", "/"); }
  lemma NoDoubleSlashInSearch() ensures IndexOf("example.com" + "/" + "videos?search=x", "//") == None
  {
    SearchPremises();
    NoDoubledAround("example.com", '/', "videos?search=x");
    assert "//" == ['/', '/'] && "/" == ['/'];
  }
  lemma SearchPremises()
    ensures '/' !in "example.com" && "videos?search=x"[0] != '/'
    ensures IndexOf("videos?search=x", ['/', '/']) == None
  { NoSlashCharInExample(); NoDoubledInSearch(); }
  lemma NoSlashCharInExample() ensures '/' !in "example.com"
  { assert "example.com" == ['e', 'x', 'a', 'm', 'p', 'l', 'e', '.', 'c', 'o', 'm']; }
  lemma NoDoubledInSearch() ensures IndexOf("videos?search=x", ['/', '/']) == None
  { IndexOfAbsent("videos?search=x", ['/', '/']); }
  lemma SplitSearch()
    ensures Split("example.com" + "/" + "videos?search=x", "/") == ["example.com", "videos?search=x"]
  {
    SplitAfterPart("example.com", "/", "videos?search=x");
    NoSlashInSearch();
  }
  lemma NoWwwInExample() ensures ReplaceFirst("example.com", "www.", "") == "example.com"
  { IndexOfAbsent("example.com", "www."); }

  lemma AppendSearch()
    ensures AppendSegments("example.com", ["videos?search=x"], Utf16Length("example.com") + MaxSegmentsLength)
      == "example.com" + "/" + "videos?search=x"
  {
    assert ["videos?search=x"][1..] == [];
  }

  /** `https://example.com/videos?search=x` keeps its whole path. */
  lemma ShortenShortPath(protocol: string)
    requires '/' !in protocol
    ensures Shorten(protocol + "//" + ("example.com" + "/" + "videos?search=x"))
      == Ok("example.com" + "/" + "videos?search=x")
  {
    NoDoubleSlashInSearch();
    ShortenAddress(protocol, "example.com" + "/" + "videos?search=x");
    SplitSearch();
    NoWwwInExample();
    assert ["example.com", "videos?search=x"][1..] == ["videos?search=x"];
    AppendSearch();
  }

  lemma NoSlashInLongTail() ensures IndexOf("123456789012345678901234567890xxx", "/") == None
  { IndexOfAbsent("123456789012345678901234567890xxx", "/"); }
  lemma NoDoubleSlashInLongTail() ensures IndexOf("123456789012345678901234567890xxx", "//") == None
  { IndexOfAbsent("123456789012345678901234567890xxx", "//"); }
  lemma NoDoubleSlashInLong()
    ensures IndexOf("example.com" + "/" + ("videos" + "/" + "123456789012345678901234567890xxx"), "//") == None
  {
    NoDoubleSlashInLongTail();
    NoDoubledAround("videos", '/', "123456789012345678901234567890xxx");
    NoDoubledAround("example.com", '/', "videos" + "/" + "123456789012345678901234567890xxx");
  }
  lemma SplitLongTail()
    ensures Split("videos" + "/" + "123456789012345678901234567890xxx", "/")
      == ["videos", "123456789012345678901234567890xxx"]
  {
    SplitAfterPart("videos", "/", "123456789012345678901234567890xxx");
    NoSlashInLongTail();
  }
  lemma SplitLong()
    ensures Split("example.com" + "/" + ("videos" + "/" + "123456789012345678901234567890xxx"), "/")
      == ["example.com", "videos", "123456789012345678901234567890xxx"]
  {
    SplitAfterPart("example.com", "/", "videos" + "/" + "123456789012345678901234567890xxx");
    SplitLongTail();
  }

  /** `https://example.com/videos/123456789012345678901234567890xxx` becomes
      `example.com/videos/...`: the 33-character segment would take the
      text past 11 + 30 characters. */
  lemma ShortenLongPath(protocol: string)
    requires '/' !in protocol
    ensures Shorten(protocol + "//" + ("example.com" + "/" + ("videos" + "/" + "123456789012345678901234567890xxx")))
      == Ok("example.com" + "/" + "videos" + "/...")
  {
    var address := "example.com" + "/" + ("videos" + "/" + "123456789012345678901234567890xxx");
    NoDoubleSlashInLong();
    ShortenAddress(protocol, address);
    SplitLong();
    NoWwwInExample();
    var segments := ["videos", "123456789012345678901234567890xxx"];
    assert ["example.com", "videos", "123456789012345678901234567890xxx"][1..] == segments;
    assert segments[1..] == ["123456789012345678901234567890xxx"];
  }

  /** Sixteen copies of U+1F600, a character outside the Basic
      Multilingual Plane: 16 characters, 32 UTF-16 code units. */
  const Smiles: string := seq(16, _ => '\U{1F600}')

  lemma SmilesFacts()
    ensures |Smiles| == 16 && Utf16Length(Smiles) == 32
    ensures '/' !in Smiles && IndexOf(Smiles, "/") == None && IndexOf(Smiles, "//") == None
  {
    Utf16LengthAstral(Smiles);
    IndexOfAbsent(Smiles, "/");
    IndexOfAbsent(Smiles, "//");
  }

  lemma OneLetterDomain()
    ensures Utf16Length("d") == 1 && ReplaceFirst("d", "www.", "") == "d"
  {
    Utf16LengthBmp("d");
  }

  /** `h://d/` followed by sixteen U+1F600: the segment is 16 characters but
      32 code units, over the budget of 1 + 30, so it is cut although its
      length in characters is within the budget. */
  lemma ShortenCountsCodeUnits()
    ensures |"d"| + |Smiles| <= |"d"| + MaxSegmentsLength
    ensures Shorten("h:" + "//" + ("d" + "/" + Smiles)) == Ok("d" + "/...")
  {
    SmilesFacts();
    OneLetterDomain();
    assert "//" == ['/', '/'] && "/" == ['/'];
    NoDoubledAround("d", '/', Smiles);
    ShortenAddress("h:", "d" + "/" + Smiles);
    SplitAfterPart("d", "/", Smiles);
    assert ["d", Smiles][1..] == [Smiles];
    assert [Smiles][1..] == [];
  }
}
