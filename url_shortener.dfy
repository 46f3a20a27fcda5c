/**
 * Package `urlshort`: an HTTP handler that redirects request paths found in
 * a path-to-URL table and hands every other request to a fallback handler.
 * The table is given directly (`MapHandler`) or built from a YAML list of
 * `{path, url}` records (`YAMLHandler`). A response is modelled as the
 * decision the handler takes; the YAML decoder is modelled by its result.
 */
module UrlShort {
  import opened Wrappers

  /** `http.StatusFound`, the status `http.Redirect` is called with. */
  const StatusFound: int := 302

  /** One YAML record: `path: ...` and `url: ...`. */
  datatype UrlData = UrlData(path: string, url: string)

  /** What `yaml.Unmarshal` reports for a malformed document. */
  datatype ParseError = ParseError(message: string)

  /**
   * What the handler does with one request: redirect to `dest` with
   * `status`, or call `fallback.ServeHTTP` on the unchanged request.
   */
  datatype Response = Redirect(dest: string, status: int) | Fallback

  /**
   * The `http.HandlerFunc` that `MapHandler(pathsToUrls, fallback)` returns:
   * a closure over the table, which it only reads.
   */
  datatype Handler = MapHandler(pathsToUrls: map<string, string>) {

    /**
     * Exact-key lookup of the request path: a hit redirects to exactly the
     * stored URL with status 302 and does not call the fallback; a miss
     * calls the fallback and issues no redirect.
     */
    function ServeHTTP(requestPath: string): (r: Response)
      ensures r.Redirect? <==> requestPath in pathsToUrls
      ensures r.Fallback? <==> requestPath !in pathsToUrls
      ensures r.Redirect? ==> r.dest == pathsToUrls[requestPath] && r.status == StatusFound
    {
      if requestPath in pathsToUrls then Redirect(pathsToUrls[requestPath], StatusFound)
      else Fallback
    }
  }

  /** The distinct paths of the records. */
  function Paths(urlData: seq<UrlData>): set<string> {
    set i | 0 <= i < |urlData| :: urlData[i].path
  }

  /**
   * The table `getMappedUrlData` builds: each record, in order, stores its
   * URL under its path, overwriting what an earlier record stored there.
   * Its keys are exactly the records' paths.
   */
  function MappedUrlData(urlData: seq<UrlData>): (m: map<string, string>)
    ensures m.Keys == Paths(urlData)
  {
    if urlData == [] then map[]
    else
      var item := urlData[|urlData| - 1];
      var m := MappedUrlData(urlData[..|urlData| - 1])[item.path := item.url];
      assert Paths(urlData) == Paths(urlData[..|urlData| - 1]) + {item.path} by {
        PathsOfSnoc(urlData);
      }
      m
  }

  lemma PathsOfSnoc(urlData: seq<UrlData>)
    requires urlData != []
    ensures Paths(urlData) == Paths(urlData[..|urlData| - 1]) + {urlData[|urlData| - 1].path}
  {
    var init := urlData[..|urlData| - 1];
    forall p | p in Paths(urlData) ensures p in Paths(init) + {urlData[|urlData| - 1].path} {
      var i :| 0 <= i < |urlData| && urlData[i].path == p;
      if i < |init| {
        assert init[i].path == p;
      }
    }
    forall p | p in Paths(init) ensures p in Paths(urlData) {
      var i :| 0 <= i < |init| && init[i].path == p;
      assert urlData[i].path == p;
    }
  }

  /**
   * `getMappedUrlData`: a fresh map filled by one pass over the records,
   * `mappedUrlData[item.Path] = item.Url` for each in turn.
   */
  method GetMappedUrlData(urlData: seq<UrlData>) returns (mappedUrlData: map<string, string>)
    ensures mappedUrlData == MappedUrlData(urlData)
    ensures forall i :: 0 <= i < |urlData| ==> urlData[i].path in mappedUrlData
    ensures forall p :: p in mappedUrlData ==> p in Paths(urlData)
  {
    mappedUrlData := map[];
    for i := 0 to |urlData|
      invariant mappedUrlData == MappedUrlData(urlData[..i])
    {
      var item := urlData[i];
      mappedUrlData := mappedUrlData[item.path := item.url];
      assert urlData[..i + 1][..i] == urlData[..i];
    }
    assert urlData[..|urlData|] == urlData;
    assert forall i :: 0 <= i < |urlData| ==> urlData[i].path in Paths(urlData);
  }

  /** Record `i` is the last record whose path is `urlData[i].path`. */
  predicate IsLastFor(urlData: seq<UrlData>, i: int) {
    0 <= i < |urlData| && forall j :: i < j < |urlData| ==> urlData[j].path != urlData[i].path
  }

  /** Last write wins: the table holds, under a path, the URL of the last record with that path. */
  lemma {:induction false} LastWriteWins(urlData: seq<UrlData>, i: int)
    requires IsLastFor(urlData, i)
    ensures urlData[i].path in MappedUrlData(urlData)
    ensures MappedUrlData(urlData)[urlData[i].path] == urlData[i].url
  {
    var n := |urlData| - 1;
    if i < n {
      var init := urlData[..n];
      assert init[i] == urlData[i];
      assert IsLastFor(init, i) by {
        forall j | i < j < |init| ensures init[j].path != init[i].path {
          assert init[j] == urlData[j];
        }
      }
      LastWriteWins(init, i);
      assert urlData[n].path != urlData[i].path;
    }
  }

  /** Every entry of the table comes from a record, namely the last one with that path. */
  lemma {:induction false} EntriesComeFromLastRecord(urlData: seq<UrlData>, p: string)
    requires p in MappedUrlData(urlData)
    ensures exists i :: IsLastFor(urlData, i) && urlData[i].path == p
                        && MappedUrlData(urlData)[p] == urlData[i].url
  {
    var n := |urlData| - 1;
    if urlData[n].path == p {
      assert IsLastFor(urlData, n);
    } else {
      var init := urlData[..n];
      EntriesComeFromLastRecord(init, p);
      var i :| IsLastFor(init, i) && init[i].path == p && MappedUrlData(init)[p] == init[i].url;
      assert urlData[i] == init[i];
      assert IsLastFor(urlData, i) by {
        forall j | i < j < |urlData| ensures urlData[j].path != urlData[i].path {
          if j < n {
            assert init[j] == urlData[j];
          }
        }
      }
    }
  }

  /** The table is empty exactly when there are no records. */
  lemma EmptyInputEmptyTable(urlData: seq<UrlData>)
    ensures MappedUrlData(urlData) == map[] <==> urlData == []
  {
    if urlData != [] {
      assert urlData[0].path in Paths(urlData);
    }
  }

  lemma {:induction false} PathsBound(urlData: seq<UrlData>)
    ensures |Paths(urlData)| <= |urlData|
  {
    if urlData != [] {
      PathsOfSnoc(urlData);
      PathsBound(urlData[..|urlData| - 1]);
    }
  }

  /** The table has one key per distinct path, hence at most `len(urlData)` entries. */
  lemma {:induction false} TableSizeBound(urlData: seq<UrlData>)
    ensures |MappedUrlData(urlData)| == |Paths(urlData)| <= |urlData|
  {
    var m := MappedUrlData(urlData);
    assert |m| == |m.Keys|;
    PathsBound(urlData);
  }

  /**
   * `YAMLHandler`: a failed parse yields no handler and that same error;
   * a successful parse yields `MapHandler` over the table built from the
   * parsed records, and no error.
   */
  method YAMLHandler(parsed: Result<seq<UrlData>, ParseError>) returns (r: Result<Handler, ParseError>)
    ensures parsed.Failure? <==> r.Failure?
    ensures parsed.Failure? ==> r.error == parsed.error
    ensures parsed.Success? ==> r.value == MapHandler(MappedUrlData(parsed.value))
  {
    if parsed.Failure? {
      return Failure(parsed.error);
    }
    var mappedUrlData := GetMappedUrlData(parsed.value);
    return Success(MapHandler(mappedUrlData));
  }

  /**
   * The YAML-built handler, request by request: a path that some record
   * names redirects with 302 to the URL of the last such record; any
   * other path goes to the fallback.
   */
  lemma YamlHandlerServes(urlData: seq<UrlData>, requestPath: string)
    ensures requestPath !in Paths(urlData) ==> MapHandler(MappedUrlData(urlData)).ServeHTTP(requestPath) == Fallback
    ensures forall i :: IsLastFor(urlData, i) && urlData[i].path == requestPath ==>
              MapHandler(MappedUrlData(urlData)).ServeHTTP(requestPath) == Redirect(urlData[i].url, StatusFound)
  {
    forall i | IsLastFor(urlData, i) && urlData[i].path == requestPath
      ensures MapHandler(MappedUrlData(urlData)).ServeHTTP(requestPath) == Redirect(urlData[i].url, StatusFound)
    {
      LastWriteWins(urlData, i);
    }
  }

  /** A document with one record serves like the table given directly with that one entry. */
  lemma SingleRecordIsDirectTable(path: string, url: string)
    ensures MappedUrlData([UrlData(path, url)]) == map[path := url]
  {
    assert [UrlData(path, url)][..0] == [];
  }

  /** Two records for one path: the second one's URL is served. */
  lemma DuplicatePathLastWins(path: string, x: string, y: string)
    ensures MapHandler(MappedUrlData([UrlData(path, x), UrlData(path, y)])).ServeHTTP(path) == Redirect(y, StatusFound)
  {
    LastWriteWins([UrlData(path, x), UrlData(path, y)], 1);
  }

  /** Matching is exact: a path that differs from a key by a trailing slash is not redirected. */
  lemma ExactMatchOnly()
    ensures MapHandler(map["/golang" := "https://go.dev", "/yt" := "https://youtube.com"]).ServeHTTP("/golang")
            == Redirect("https://go.dev", StatusFound)
    ensures MapHandler(map["/golang" := "https://go.dev", "/yt" := "https://youtube.com"]).ServeHTTP("/golang/")
            == Fallback
    ensures MapHandler(map["/golang" := "https://go.dev", "/yt" := "https://youtube.com"]).ServeHTTP("/unknown")
            == Fallback
  {
    assert "/golang/" != "/golang" && "/golang/" != "/yt";
    assert "/unknown" != "/golang" && "/unknown" != "/yt";
  }
}
