/**
 * The URL-cleaning helper of the GitLab multiplatform client kit and the
 * relative path of its OAuth token endpoint.
 *
 * `removeProtocol` folds Kotlin's `removePrefix` over a list of protocol
 * prefixes, by default `"http://"` then `"https://"`. Each prefix gets exactly
 * one turn, in list order, and is dropped only when it leads the string at
 * that turn.
 */
module GitlabSdk {

  /** Kotlin strings, as sequences of characters. */
  type String = seq<char>

  /** The prefixes `removeProtocol` strips when the caller names none, in the order they are tried. */
  const DefaultProtocols: seq<String> := ["http://", "https://"]

  /**
   * Relative path of the password-grant OAuth endpoint. That it is resolved
   * against the instance's root URL is read from the documentation comment
   * beside it; the code that uses it is not part of this model.
   */
  const OauthLoginPath: String := "oauth/token"

  /** `t` is a trailing part of `s`. */
  predicate IsSuffix(t: String, s: String) {
    |t| <= |s| && s[|s| - |t|..] == t
  }

  /** `xs` can be obtained from `ys` by deleting elements, keeping the order of the rest. */
  predicate IsSubsequence<T(==)>(xs: seq<T>, ys: seq<T>)
    decreases |ys|
  {
    if xs == [] then true
    else if ys == [] then false
    else (xs[0] == ys[0] && IsSubsequence(xs[1..], ys[1..])) || IsSubsequence(xs, ys[1..])
  }

  /** The strings of `parts` written one after the other. */
  function Concat(parts: seq<String>): String
  {
    if parts == [] then [] else parts[0] + Concat(parts[1..])
  }

  /**
   * Kotlin's `String.removePrefix`: when `s` starts with `prefix`, the rest of
   * `s` after it; otherwise `s` itself.
   */
  function RemovePrefix(s: String, prefix: String): (r: String)
    ensures prefix <= s ==> prefix + r == s
    ensures !(prefix <= s) ==> r == s
  {
    if prefix <= s then s[|prefix|..] else s
  }

  /**
   * `String.removeProtocol(protocols)`: a left fold of `RemovePrefix` over
   * `protocols` whose initial value is the receiver `s`. Whatever it removes,
   * what is left is a trailing part of the input.
   */
  function RemoveProtocol(s: String, protocols: seq<String> := DefaultProtocols): (r: String)
    ensures IsSuffix(r, s)
    decreases |protocols|
  {
    if protocols == [] then s
    else RemoveProtocol(RemovePrefix(s, protocols[0]), protocols[1..])
  }

  /** The prefixes `RemoveProtocol(s, protocols)` actually drops, in the order it drops them. */
  function RemovedPrefixes(s: String, protocols: seq<String>): (removed: seq<String>)
    ensures IsSubsequence(removed, protocols)
    decreases |protocols|
  {
    if protocols == [] then []
    else if protocols[0] <= s then [protocols[0]] + RemovedPrefixes(s[|protocols[0]|..], protocols[1..])
    else RemovedPrefixes(s, protocols[1..])
  }

  /**
   * The input is the prefixes that were dropped, in list order, followed by
   * the result: nothing else is removed, added or reordered.
   */
  lemma {:induction false} RemoveProtocolDecomposes(s: String, protocols: seq<String>)
    ensures s == Concat(RemovedPrefixes(s, protocols)) + RemoveProtocol(s, protocols)
    decreases |protocols|
  {
    if protocols != [] {
      var p := protocols[0];
      if p <= s {
        var rest := s[|p|..];
        var tail := RemovedPrefixes(rest, protocols[1..]);
        var r := RemoveProtocol(rest, protocols[1..]);
        assert RemovedPrefixes(s, protocols) == [p] + tail;
        assert RemovePrefix(s, p) == rest;
        assert RemoveProtocol(s, protocols) == r;
        RemoveProtocolDecomposes(rest, protocols[1..]);
        assert ([p] + tail)[1..] == tail;
        assert Concat([p] + tail) == p + Concat(tail);
        calc {
          s;
          p + rest;
          p + (Concat(tail) + r);
          (p + Concat(tail)) + r;
        }
      } else {
        RemoveProtocolDecomposes(s, protocols[1..]);
      }
    }
  }

  /** With no prefixes to try, the receiver is returned unchanged (the fold's initial value). */
  lemma EmptyProtocolsKeepInput(s: String)
    ensures RemoveProtocol(s, []) == s
  {
  }

  /** A string that none of the prefixes leads is a fixed point. */
  lemma {:induction false} NoLeadingProtocolKeepsInput(s: String, protocols: seq<String>)
    requires forall p :: p in protocols ==> !(p <= s)
    ensures RemoveProtocol(s, protocols) == s
    decreases |protocols|
  {
    if protocols != [] {
      assert protocols[0] in protocols;
      forall p | p in protocols[1..] ensures !(p <= s) {
        assert p in protocols;
      }
      NoLeadingProtocolKeepsInput(s, protocols[1..]);
    }
  }

  /** Folding over two lists one after the other is folding over the second from the first's result. */
  lemma {:induction false} RemoveProtocolAppend(s: String, first: seq<String>, second: seq<String>)
    ensures RemoveProtocol(s, first + second) == RemoveProtocol(RemoveProtocol(s, first), second)
    decreases |first|
  {
    if first == [] {
      assert first + second == second;
    } else {
      assert (first + second)[0] == first[0];
      assert (first + second)[1..] == first[1..] + second;
      RemoveProtocolAppend(RemovePrefix(s, first[0]), first[1..], second);
    }
  }

  /**
   * With the default prefixes: a leading `"http://"` is dropped first, then a
   * `"https://"` that leads what is left; a string led by `"https://"` loses
   * just that; any other string is kept.
   */
  lemma DefaultRemoveProtocol(s: String)
    ensures RemoveProtocol(s) ==
      if "http://" <= s then
        (if "https://" <= s[7..] then s[15..] else s[7..])
      else if "https://" <= s then s[8..]
      else s
  {
  }

  /** With the default prefixes, the input comes back unchanged exactly when neither prefix leads it. */
  lemma DefaultFixedPointIff(s: String)
    ensures RemoveProtocol(s) == s <==> !("http://" <= s) && !("https://" <= s)
  {
  }

  /** A leading `"http://"` is stripped and the rest, path included, kept verbatim, unless the rest itself starts with `"https://"`. */
  lemma StripsLeadingHttp(rest: String)
    requires !("https://" <= rest)
    ensures RemoveProtocol("http://" + rest) == rest
  {
  }

  /** A leading `"https://"` is always stripped and the rest, path included, kept verbatim. */
  lemma StripsLeadingHttps(rest: String)
    ensures RemoveProtocol("https://" + rest) == rest
  {
    var s := "https://" + rest;
    DefaultRemoveProtocol(s);
    assert s[4] == 's';
    assert s[8..] == rest;
  }

  /**
   * Each default prefix gets one turn, in list order: `"https://"` after
   * `"http://"` is also removed, but `"http://"` after `"https://"` stays.
   */
  lemma ProtocolsTriedInOrder(rest: String)
    ensures RemoveProtocol("http://" + "https://" + rest) == rest
    ensures RemoveProtocol("https://" + "http://" + rest) == "http://" + rest
  {
    var http: String := "http://";
    var https: String := "https://";
    var a := http + (https + rest);
    assert http + https + rest == a;
    assert DefaultProtocols[0] == http && DefaultProtocols[1..] == [https];
    assert [https][0] == https && [https][1..] == [];
    assert RemovePrefix(a, http) == https + rest by { assert a[..7] == http; assert a[7..] == https + rest; }
    assert RemovePrefix(https + rest, https) == rest by { assert (https + rest)[8..] == rest; }
    calc {
      RemoveProtocol(a);
      RemoveProtocol(https + rest, [https]);
      RemoveProtocol(rest, []);
    }
    assert https + http + rest == https + (http + rest);
    StripsLeadingHttps(http + rest);
  }

  /** Removing the protocol is not idempotent: a doubled `"http://"` needs two calls. */
  lemma NotIdempotent()
    ensures RemoveProtocol("http://http://x") == "http://x"
    ensures RemoveProtocol(RemoveProtocol("http://http://x")) == "x"
  {
    var once: String := "http://x";
    assert "http://http://x" == "http://" + once;
    assert once[4] == ':';
    StripsLeadingHttp(once);
    assert once == "http://" + "x";
    StripsLeadingHttp("x");
  }

  /**
   * The hostname-cleaning cases of the repository's tests in which a leading
   * protocol is removed; each input is written as its protocol followed by the
   * rest, which is the same string.
   */
  lemma CleanHostnameStripped()
    ensures RemoveProtocol("http://" + "www.example.com") == "www.example.com"
    ensures RemoveProtocol("https://" + "www.example.com") == "www.example.com"
    ensures RemoveProtocol("http://" + "www.example.com/") == "www.example.com/"
    ensures RemoveProtocol("https://" + "www.example.com/") == "www.example.com/"
    ensures RemoveProtocol("http://" + "www.example.com//") == "www.example.com//"
    ensures RemoveProtocol("https://" + "www.example.com//") == "www.example.com//"
  {
    assert !("https://" <= "www.example.com") by { assert "www.example.com"[0] == 'w'; }
    StripsLeadingHttp("www.example.com");
    StripsLeadingHttps("www.example.com");
    assert !("https://" <= "www.example.com/") by { assert "www.example.com/"[0] == 'w'; }
    StripsLeadingHttp("www.example.com/");
    StripsLeadingHttps("www.example.com/");
    assert !("https://" <= "www.example.com//") by { assert "www.example.com//"[0] == 'w'; }
    StripsLeadingHttp("www.example.com//");
    StripsLeadingHttps("www.example.com//");
  }

  /** The hostname-cleaning cases of the repository's tests in which the input is kept, protocol text in it or not. */
  lemma CleanHostnameKept()
    ensures RemoveProtocol("www.example.com/http://") == "www.example.com/http://"
    ensures RemoveProtocol("www.example.com/https://") == "www.example.com/https://"
    ensures RemoveProtocol("www.example.http:/") == "www.example.http:/"
    ensures RemoveProtocol("www.example.https:/") == "www.example.https:/"
    ensures RemoveProtocol("www.example.http://") == "www.example.http://"
    ensures RemoveProtocol("www.example.https://") == "www.example.https://"
  {
    assert "www.example.com/http://"[0] == 'w';
    DefaultFixedPointIff("www.example.com/http://");
    assert "www.example.com/https://"[0] == 'w';
    DefaultFixedPointIff("www.example.com/https://");
    assert "www.example.http:/"[0] == 'w';
    DefaultFixedPointIff("www.example.http:/");
    assert "www.example.https:/"[0] == 'w';
    DefaultFixedPointIff("www.example.https:/");
    assert "www.example.http://"[0] == 'w';
    DefaultFixedPointIff("www.example.http://");
    assert "www.example.https://"[0] == 'w';
    DefaultFixedPointIff("www.example.https://");
  }

  /** The OAuth path is relative (non-empty, no leading `/`) and carries no protocol, so cleaning leaves it as is. */
  lemma OauthLoginPathIsRelative()
    ensures |OauthLoginPath| > 0 && OauthLoginPath[0] != '/'
    ensures RemoveProtocol(OauthLoginPath) == OauthLoginPath
  {
  }
}
