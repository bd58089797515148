/** The routing decision of domainHandler (main.go:266-355): which tenant directory a
    request selects, and what is served for it: the requested file, a site or global
    404.html, a bare 404, or a 500. The filesystem is an abstract map from paths to
    stat outcomes; serving itself (http.ServeFile, http.FileServer) is not modelled,
    only the decision of what to serve and from where. */
module Routing {
  import Host
  import Strings
  import opened Paths

  /** ./www, the content base directory (filepath.Clean("./www")). */
  const Www: Path := ["www"]

  /** ./www/404.html, the server-wide not-found page. */
  const Global404: Path := ["www", "404.html"]

  const NotFoundPage: Name := "404.html"

  /** What os.Stat reports about a path: success, an os.IsNotExist error, or any other error. */
  datatype Stat = Exists | NotExist | OtherError

  /** The filesystem as seen through os.Stat; a path it does not list does not exist. */
  type FileSystem = map<Path, Stat>

  function StatOf(fs: FileSystem, p: Path): (s: Stat)
    ensures s != NotExist ==> p in fs
  {
    if p in fs then fs[p] else NotExist
  }

  /** What the handler does: serve the URL path with a file server rooted at a tenant
      directory, serve one 404 page with http.ServeFile, answer with a plain 404, or
      answer with a plain 500. http.ServeFile answers a page it can read with status
      200, so a Serve404File outcome goes out as 200 with the page as body, not as a 404. */
  datatype Outcome =
    | ServeFile(root: Path, urlPath: string)
    | Serve404File(page: Path)
    | Bare404
    | Err500

  /** The outcome together with the paths the handler stats, in the order it stats them. */
  datatype Decision = Decision(outcome: Outcome, probes: seq<Path>)

  /** The same outcome, after the given stats have been made. */
  function After(probes: seq<Path>, d: Decision): Decision {
    Decision(d.outcome, probes + d.probes)
  }

  /** filepath.Join("./www", domain) for the domain of the Host header. For a plain
      domain name this is ./www/<domain>; an empty domain gives ./www itself, "." too,
      and ".." gives the working directory. */
  function TenantDir(host: string): (d: Path)
    ensures PlainName(Host.SplitDomainFromPort(host)) ==> d == Www + [Host.SplitDomainFromPort(host)]
    ensures CleanPath(d)
  {
    WwwIsClean();
    Join(Www, Host.SplitDomainFromPort(host))
  }

  lemma WwwIsClean()
    ensures CleanPath(Www)
  {
    assert Www[0] == "www" && '/' !in "www";
  }

  /** The not-found chain shared by both phases of the handler: the site's own 404.html
      if it stats without error, else ./www/404.html if it stats without error, else a
      bare 404. The first page that exists wins. */
  function NotFoundChain(fs: FileSystem, site: Path): (d: Decision)
    ensures d.outcome == Serve404File(Join(site, NotFoundPage))
            <==> StatOf(fs, Join(site, NotFoundPage)) == Exists
    ensures d.outcome == Serve404File(Global404) && Join(site, NotFoundPage) != Global404
            <==> StatOf(fs, Join(site, NotFoundPage)) != Exists && StatOf(fs, Global404) == Exists
    ensures d.outcome == Bare404
            <==> StatOf(fs, Join(site, NotFoundPage)) != Exists && StatOf(fs, Global404) != Exists
    ensures d.outcome.Serve404File? || d.outcome == Bare404
    ensures d.probes == if StatOf(fs, Join(site, NotFoundPage)) == Exists
                        then [Join(site, NotFoundPage)]
                        else [Join(site, NotFoundPage), Global404]
  {
    var page := Join(site, NotFoundPage);
    if StatOf(fs, page) == Exists then Decision(Serve404File(page), [page])
    else if StatOf(fs, Global404) == Exists then Decision(Serve404File(Global404), [page, Global404])
    else Decision(Bare404, [page, Global404])
  }

  /** domainHandler as written: two phases, each with its own copy of the not-found
      chain. The first phase names the site page filepath.Join("./www", domain,
      "404.html"), the second filepath.Join(path, "404.html"). */
  function DomainHandler(fs: FileSystem, host: string, urlPath: string): (d: Decision)
    ensures |d.probes| >= 1 && d.probes[0] == TenantDir(host)
  {
    var domain := Host.SplitDomainFromPort(host);
    var path := Join(Www, domain);
    match StatOf(fs, path)
    case OtherError => Decision(Err500, [path])
    case NotExist =>
      var site404 := JoinAll(Www, [domain, NotFoundPage]);
      if StatOf(fs, site404) == Exists then Decision(Serve404File(site404), [path, site404])
      else if StatOf(fs, Global404) == Exists then Decision(Serve404File(Global404), [path, site404, Global404])
      else Decision(Bare404, [path, site404, Global404])
    case Exists =>
      var filePath := Join(path, urlPath);
      match StatOf(fs, filePath)
      case OtherError => Decision(Err500, [path, filePath])
      case NotExist =>
        var site404 := Join(path, NotFoundPage);
        if StatOf(fs, site404) == Exists then Decision(Serve404File(site404), [path, filePath, site404])
        else if StatOf(fs, Global404) == Exists then Decision(Serve404File(Global404), [path, filePath, site404, Global404])
        else Decision(Bare404, [path, filePath, site404, Global404])
      case Exists => Decision(ServeFile(path, urlPath), [path, filePath])
  }

  /** Both duplicated copies of the not-found chain in domainHandler are the one shared
      chain, scoped to the tenant directory: after a missing tenant directory, and
      after a missing file inside an existing one. */
  lemma BothPhasesShareNotFoundChain(fs: FileSystem, host: string, urlPath: string)
    ensures StatOf(fs, TenantDir(host)) == NotExist ==>
      DomainHandler(fs, host, urlPath) == After([TenantDir(host)], NotFoundChain(fs, TenantDir(host)))
    ensures StatOf(fs, TenantDir(host)) == Exists && StatOf(fs, Join(TenantDir(host), urlPath)) == NotExist ==>
      DomainHandler(fs, host, urlPath)
        == After([TenantDir(host), Join(TenantDir(host), urlPath)], NotFoundChain(fs, TenantDir(host)))
  {
    if StatOf(fs, TenantDir(host)) == NotExist {
      MissingTenantChain(fs, host, urlPath);
    }
    if StatOf(fs, TenantDir(host)) == Exists && StatOf(fs, Join(TenantDir(host), urlPath)) == NotExist {
      MissingFileChain(fs, host, urlPath);
    }
  }

  /** The first phase: the site page filepath.Join("./www", domain, "404.html") is the
      404.html of the tenant directory. */
  lemma MissingTenantChain(fs: FileSystem, host: string, urlPath: string)
    requires StatOf(fs, TenantDir(host)) == NotExist
    ensures DomainHandler(fs, host, urlPath) == After([TenantDir(host)], NotFoundChain(fs, TenantDir(host)))
  {
    JoinTwice(Www, Host.SplitDomainFromPort(host), NotFoundPage);
  }

  /** The second phase. */
  lemma MissingFileChain(fs: FileSystem, host: string, urlPath: string)
    requires StatOf(fs, TenantDir(host)) == Exists && StatOf(fs, Join(TenantDir(host), urlPath)) == NotExist
    ensures DomainHandler(fs, host, urlPath)
         == After([TenantDir(host), Join(TenantDir(host), urlPath)], NotFoundChain(fs, TenantDir(host)))
  {
  }

  /** For the same stat outcomes of the two 404 pages, a missing tenant directory and a
      missing file in an existing one end in the same outcome. */
  lemma PhasesAgreeOnNotFound(fs1: FileSystem, fs2: FileSystem, host: string, url1: string, url2: string)
    requires StatOf(fs1, TenantDir(host)) == NotExist
    requires StatOf(fs2, TenantDir(host)) == Exists && StatOf(fs2, Join(TenantDir(host), url2)) == NotExist
    requires StatOf(fs1, Join(TenantDir(host), NotFoundPage)) == StatOf(fs2, Join(TenantDir(host), NotFoundPage))
    requires StatOf(fs1, Global404) == StatOf(fs2, Global404)
    ensures DomainHandler(fs1, host, url1).outcome == DomainHandler(fs2, host, url2).outcome
  {
    BothPhasesShareNotFoundChain(fs1, host, url1);
    BothPhasesShareNotFoundChain(fs2, host, url2);
  }

  /** A tenant directory that cannot be stat'ed for a reason other than absence gives a
      500 at once: no 404 page and no requested file is consulted. */
  lemma TenantStatErrorIs500(fs: FileSystem, host: string, urlPath: string)
    requires StatOf(fs, TenantDir(host)) == OtherError
    ensures DomainHandler(fs, host, urlPath) == Decision(Err500, [TenantDir(host)])
  {
  }

  /** A 500 comes exactly from a stat error other than absence: on the tenant directory,
      or on the requested file inside an existing tenant directory. */
  lemma Err500Iff(fs: FileSystem, host: string, urlPath: string)
    ensures DomainHandler(fs, host, urlPath).outcome == Err500
      <==> StatOf(fs, TenantDir(host)) == OtherError
           || (StatOf(fs, TenantDir(host)) == Exists && StatOf(fs, Join(TenantDir(host), urlPath)) == OtherError)
  {
    var dir := TenantDir(host);
    if StatOf(fs, dir) == NotExist {
      MissingTenantChain(fs, host, urlPath);
    } else if StatOf(fs, dir) == Exists && StatOf(fs, Join(dir, urlPath)) == NotExist {
      MissingFileChain(fs, host, urlPath);
    }
  }

  /** The requested content is served exactly when the tenant directory and the file
      inside it both stat successfully, and then from a file server rooted at the
      tenant directory of this host. */
  lemma ServeFileIff(fs: FileSystem, host: string, urlPath: string)
    ensures DomainHandler(fs, host, urlPath).outcome.ServeFile?
      <==> StatOf(fs, TenantDir(host)) == Exists && StatOf(fs, Join(TenantDir(host), urlPath)) == Exists
    ensures DomainHandler(fs, host, urlPath).outcome.ServeFile? ==>
      DomainHandler(fs, host, urlPath).outcome == ServeFile(TenantDir(host), urlPath)
  {
    var dir := TenantDir(host);
    if StatOf(fs, dir) == NotExist {
      MissingTenantChain(fs, host, urlPath);
    } else if StatOf(fs, dir) == Exists && StatOf(fs, Join(dir, urlPath)) == NotExist {
      MissingFileChain(fs, host, urlPath);
    }
  }

  /** The site's own 404.html is preferred over ./www/404.html, which is preferred over a
      bare 404, whichever phase reaches the not-found chain. */
  lemma NotFoundOrder(fs: FileSystem, host: string, urlPath: string)
    requires StatOf(fs, TenantDir(host)) == NotExist
          || (StatOf(fs, TenantDir(host)) == Exists && StatOf(fs, Join(TenantDir(host), urlPath)) == NotExist)
    ensures var site404 := Join(TenantDir(host), NotFoundPage);
      var outcome := DomainHandler(fs, host, urlPath).outcome;
      && (StatOf(fs, site404) == Exists ==> outcome == Serve404File(site404))
      && (StatOf(fs, site404) != Exists && StatOf(fs, Global404) == Exists ==> outcome == Serve404File(Global404))
      && (StatOf(fs, site404) != Exists && StatOf(fs, Global404) != Exists ==> outcome == Bare404)
  {
    BothPhasesShareNotFoundChain(fs, host, urlPath);
  }

  /** Whatever the handler serves lies in this host's tenant directory or is the global
      404 page: the served file is <tenant>/<urlPath> and a 404 page is <tenant>/404.html
      or ./www/404.html. */
  lemma ServedPathsBelongToHost(fs: FileSystem, host: string, urlPath: string)
    ensures var outcome := DomainHandler(fs, host, urlPath).outcome;
      && (outcome.ServeFile? ==> outcome.root == TenantDir(host))
      && (outcome.Serve404File? ==>
            outcome.page == Join(TenantDir(host), NotFoundPage) || outcome.page == Global404)
  {
    BothPhasesShareNotFoundChain(fs, host, urlPath);
  }

  /** A filesystem as a real one behaves: whatever exists sits in a directory that exists. */
  ghost predicate Coherent(fs: FileSystem) {
    forall dir, name :: StatOf(fs, dir + [name]) == Exists ==> StatOf(fs, dir) == Exists
  }

  /** On a coherent filesystem, a missing tenant directory cannot supply its own 404 page:
      the first phase only ever serves ./www/404.html or a bare 404. */
  lemma MissingTenantNeverServesSitePage(fs: FileSystem, host: string, urlPath: string)
    requires Coherent(fs)
    requires StatOf(fs, TenantDir(host)) == NotExist
    ensures DomainHandler(fs, host, urlPath).outcome in {Serve404File(Global404), Bare404}
  {
    JoinTwice(Www, Host.SplitDomainFromPort(host), NotFoundPage);
    var page := Join(TenantDir(host), NotFoundPage);
    assert page == TenantDir(host) + [NotFoundPage];
    assert StatOf(fs, page) != Exists;
  }

  /** Hosts whose domains are different plain names get different tenant directories,
      each ./www/<domain>. */
  lemma PlainDomainsHaveOwnDirectories(host: string, other: string)
    requires PlainName(Host.SplitDomainFromPort(host)) && PlainName(Host.SplitDomainFromPort(other))
    requires Host.SplitDomainFromPort(host) != Host.SplitDomainFromPort(other)
    ensures TenantDir(host) == Www + [Host.SplitDomainFromPort(host)]
    ensures TenantDir(host) != TenantDir(other)
  {
    assert TenantDir(other)[1] == Host.SplitDomainFromPort(other);
  }

  /** The segments of "<n>/<f>" for plain names n and f. */
  lemma SegmentsOfNamePair(n: string, f: string)
    requires PlainName(n) && PlainName(f)
    ensures Strings.Split(n + "/" + f, '/') == [n, f]
  {
    Strings.SplitOfPiece(f, '/');
    Strings.SplitAfterPiece(n, f, '/');
    assert n + ['/'] + f == n + "/" + f;
  }

  /** The segments of "/<n>/<f>" for plain names n and f: an empty one, then n and f. */
  lemma SegmentsOfTwoNames(n: string, f: string)
    requires PlainName(n) && PlainName(f)
    ensures Strings.Split("/" + n + "/" + f, '/') == ["", n, f]
  {
    var tail := n + "/" + f;
    SegmentsOfNamePair(n, f);
    var url := "/" + n + "/" + f;
    assert url == "/" + tail;
    assert url[0] == '/' && url[1..] == tail;
    assert Strings.Split(url, '/') == [[]] + Strings.Split(tail, '/');
  }

  /** The domains "" and "." select ./www itself as the tenant directory. */
  lemma WwwAsTenantDir(host: string)
    requires Host.SplitDomainFromPort(host) == "" || Host.SplitDomainFromPort(host) == "."
    ensures TenantDir(host) == Www
  {
    var domain := Host.SplitDomainFromPort(host);
    assert Strings.Split(domain, '/') == [domain] by { Strings.SplitOfPiece(domain, '/'); }
    assert [domain][1..] == [];
    assert Extend(Www, [domain]) == Extend(Www, []);
  }

  /** Below a directory, "/<n>/<f>" is cleaned to <n>/<f>, by filepath.Join and by the
      file server alike. */
  lemma TwoNamesBelow(dir: Path, n: string, f: string)
    requires PlainName(n) && PlainName(f)
    ensures Join(dir, "/" + n + "/" + f) == dir + [n, f]
    ensures FileServerPath(dir, "/" + n + "/" + f) == dir + [n, f]
  {
    SegmentsOfTwoNames(n, f);
    var url := "/" + n + "/" + f;
    assert url[0] == '/';
    CleanTwoNames(dir, n, f);
    RootedTwoNames(n, f);
  }

  lemma CleanTwoNames(dir: Path, n: string, f: string)
    requires PlainName(n) && PlainName(f)
    ensures Extend(dir, ["", n, f]) == dir + [n, f]
  {
    var segs := ["", n, f];
    assert segs[1..] == [n, f] && [n, f][1..] == [f] && [f][1..] == [];
    assert Extend(dir, segs) == Extend(dir, [n, f]);
    assert Extend(dir, [n, f]) == Extend(dir + [n], [f]);
    assert Extend(dir + [n], [f]) == Extend(dir + [n] + [f], []);
    assert dir + [n] + [f] == dir + [n, f];
  }

  lemma RootedTwoNames(n: string, f: string)
    requires PlainName(n) && PlainName(f)
    ensures RootedExtend([], ["", n, f]) == [n, f]
  {
    var segs := ["", n, f];
    assert segs[1..] == [n, f] && [n, f][1..] == [f] && [f][1..] == [];
    assert RootedStep([], n) == [n] && RootedStep([n], f) == [n, f];
    assert RootedExtend([], segs) == RootedExtend([], [n, f]);
    assert RootedExtend([], [n, f]) == RootedExtend([n], [f]);
    assert RootedExtend([n], [f]) == RootedExtend([n, f], []);
  }

  /** As written, a Host whose domain is empty (see PortOnlyHostHasEmptyDomain) or "."
      roots the file server at ./www itself, so a URL path naming another tenant's
      directory serves that tenant's file. */
  lemma WwwRootedHostServesTenantFile(fs: FileSystem, host: string, n: string, f: string)
    requires Host.SplitDomainFromPort(host) == "" || Host.SplitDomainFromPort(host) == "."
    requires PlainName(n) && ':' !in n && PlainName(f)
    requires StatOf(fs, Www) == Exists && StatOf(fs, ["www", n, f]) == Exists
    ensures var o := DomainHandler(fs, host, "/" + n + "/" + f).outcome;
      && o == ServeFile(Www, "/" + n + "/" + f)
      && FileServerPath(o.root, o.urlPath) == TenantDir(n) + [f]
  {
    WwwAsTenantDir(host);
    TwoNamesBelow(Www, n, f);
    assert Www + [n, f] == ["www", n, f];
    Host.DomainOfColonFreeHost(n);
    assert TenantDir(n) + [f] == ["www", n, f];
    ServeFileIff(fs, host, "/" + n + "/" + f);
  }

  /** The hosts with an empty domain: a Host of only a port, such as ":443", and a
      request without a Host header, whose host is "". */
  lemma PortOnlyHostHasEmptyDomain(port: string)
    ensures Host.SplitDomainFromPort(":" + port) == ""
    ensures Host.SplitDomainFromPort("") == ""
  {
    Host.DomainOfDomainAndPort("", port);
    assert "" + ":" + port == ":" + port;
  }

  /** The Host "..", which carries no colon, is its own domain. */
  lemma DotDotHostHasDotDotDomain()
    ensures Host.SplitDomainFromPort("..") == ".."
  {
    Host.DomainOfColonFreeHost("..");
  }

  /** As written, a domain ".." selects the working directory as tenant directory, so the
      file server is rooted outside ./www and serves, for instance, the certificate cache
      certs/ that autocert keeps there (main.go:196). */
  lemma DotDotDomainServesWorkingDirectory(fs: FileSystem, host: string, f: string)
    requires Host.SplitDomainFromPort(host) == ".."
    requires PlainName(f)
    requires StatOf(fs, []) == Exists && StatOf(fs, ["certs", f]) == Exists
    ensures var o := DomainHandler(fs, host, "/" + "certs" + "/" + f).outcome;
      && o == ServeFile([], "/" + "certs" + "/" + f)
      && FileServerPath(o.root, o.urlPath) == ["certs", f]
      && !(Www <= FileServerPath(o.root, o.urlPath))
  {
    assert Strings.Split("..", '/') == [".."] by { Strings.SplitOfPiece("..", '/'); }
    assert [".."][1..] == [];
    assert TenantDir(host) == [];
    assert PlainName("certs");
    TwoNamesBelow([], "certs", f);
    assert [] + ["certs", f] == ["certs", f];
    ServeFileIff(fs, host, "/" + "certs" + "/" + f);
  }

  /** The handler with the guard its design calls for: a domain that is not a plain
      directory name (empty, ".", "..", or holding a slash) selects no tenant, and the
      request falls through to ./www/404.html or a bare 404. A plain domain is routed as
      domainHandler does. */
  function CheckedDomainHandler(fs: FileSystem, host: string, urlPath: string): (d: Decision)
    ensures !PlainName(Host.SplitDomainFromPort(host)) ==> d.outcome in {Serve404File(Global404), Bare404}
  {
    if PlainName(Host.SplitDomainFromPort(host)) then DomainHandler(fs, host, urlPath)
    else if StatOf(fs, Global404) == Exists then Decision(Serve404File(Global404), [Global404])
    else Decision(Bare404, [Global404])
  }

  /** For a plain domain the guarded handler decides exactly as domainHandler, so every
      lemma above about DomainHandler holds of it for such hosts. */
  lemma CheckedAgreesOnPlainDomains(fs: FileSystem, host: string, urlPath: string)
    requires PlainName(Host.SplitDomainFromPort(host))
    ensures CheckedDomainHandler(fs, host, urlPath) == DomainHandler(fs, host, urlPath)
  {
  }

  /** Tenant isolation, for the guarded handler: content is served only from ./www/<domain>
      of this host's plain domain, and the file served is never inside the directory of
      any other plain domain, whatever the URL path ("..", empty segments and all). */
  lemma {:induction false} TenantIsolation(fs: FileSystem, host: string, other: string, urlPath: string)
    requires PlainName(Host.SplitDomainFromPort(other))
    requires Host.SplitDomainFromPort(host) != Host.SplitDomainFromPort(other)
    requires CheckedDomainHandler(fs, host, urlPath).outcome.ServeFile?
    ensures var o := CheckedDomainHandler(fs, host, urlPath).outcome;
      && o.root == Www + [Host.SplitDomainFromPort(host)]
      && o.root <= FileServerPath(o.root, o.urlPath)
      && !(TenantDir(other) <= FileServerPath(o.root, o.urlPath))
  {
    ServeFileIff(fs, host, urlPath);
    PlainDomainsHaveOwnDirectories(host, other);
    var served := FileServerPath(TenantDir(host), urlPath);
    assert served[1] == Host.SplitDomainFromPort(host);
  }
}
