/** `deepLinkComponents` of `ELRouter/NSURL+DeepLink.swift`: a deep link has
    no notion of a host, so the host becomes the first component and the
    path components follow, with the bare "/" entries dropped. URL parsing
    itself (host and path extraction) is Foundation's; the model takes its
    results as the fields of `Url`. */
module DeepLink {
  import opened Wrappers

  /** What Foundation reports for a parsed URL: `host` and `pathComponents`
      (nil when the URL has no path structure). */
  datatype Url = Url(host: Option<string>, pathComponents: Option<seq<string>>)

  /** The path components other than "/", verbatim and in order. */
  function WithoutSlashes(path: seq<string>): (r: seq<string>)
    ensures |r| == |path| - multiset(path)["/"]
    ensures multiset(r) == multiset(path)["/" := 0]
    ensures forall k :: 0 <= k < |r| ==> r[k] != "/" && r[k] in path
  {
    if |path| == 0 then []
    else
      assert path == [path[0]] + path[1..];
      var rest := WithoutSlashes(path[1..]);
      if path[0] == "/" then rest else [path[0]] + rest
  }

  /** Dropping slashes commutes with concatenation, so the surviving
      components keep their relative order. */
  lemma {:induction false} WithoutSlashesAppend(a: seq<string>, b: seq<string>)
    ensures WithoutSlashes(a + b) == WithoutSlashes(a) + WithoutSlashes(b)
  {
    if |a| == 0 {
      assert a + b == b;
    } else {
      assert (a + b)[0] == a[0];
      assert (a + b)[1..] == a[1..] + b;
      WithoutSlashesAppend(a[1..], b);
    }
  }

  function HostPart(url: Url): seq<string> {
    if url.host.Some? then [url.host.value] else []
  }

  function DeepLinkComponents(url: Url): (r: Option<seq<string>>)
    ensures r.None? <==> url.pathComponents.None?
    ensures r.Some? ==> |r.value| == |HostPart(url)| + |url.pathComponents.value| - multiset(url.pathComponents.value)["/"]
    ensures r.Some? && url.host.Some? ==> r.value[0] == url.host.value
    ensures r.Some? ==> r.value[|HostPart(url)|..] == WithoutSlashes(url.pathComponents.value)
  {
    match url.pathComponents
    case None => None
    case Some(path) => Some(HostPart(url) + WithoutSlashes(path))
  }

  /** A percent-encoded path component reaches the router as written, with
      nothing decoded (the "webview" unit test). */
  lemma EncodedComponentRetained()
    ensures DeepLinkComponents(Url(Some("webview"), Some(["/", "https%3A%2F%2Fwww.foo.com%2Fbar"])))
      == Some(["webview", "https%3A%2F%2Fwww.foo.com%2Fbar"])
  {
    var encoded := "https%3A%2F%2Fwww.foo.com%2Fbar";
    assert encoded != "/" by { assert |encoded| != 1; }
    assert ["/", encoded][1..] == [encoded];
    assert [encoded][1..] == [];
    assert WithoutSlashes([encoded]) == [encoded];
    assert WithoutSlashes(["/", encoded]) == [encoded];
    var url := Url(Some("webview"), Some(["/", encoded]));
    assert HostPart(url) == ["webview"];
    assert DeepLinkComponents(url) == Some(["webview"] + [encoded]);
    assert ["webview"] + [encoded] == ["webview", encoded];
  }
}
