/**
 * The client's share configuration: the host and port of the sharing server,
 * the optional auth settings and the magic-auth allow policy, and the
 * process-wide configuration store the constructor writes the magic-auth
 * secret into.
 */
module Config {

  import opened Wrappers
  import opened PhpStrings

  /** The port at which shared URLs are served over https and shown without a port. */
  const HttpsPort: int := 443

  /** The process-wide configuration store, as far as this model uses it. */
  class ConfigStore {
    /** config('expose.magic-auth-secret-key'); None while it was never set. */
    var magicAuthSecretKey: Option<string>

    constructor(secret: Option<string>)
      ensures magicAuthSecretKey == secret
    {
      magicAuthSecretKey := secret;
    }
  }

  /** trim() applied to each piece, in order. */
  function TrimAll(pieces: seq<string>): (r: seq<string>)
    ensures |r| == |pieces|
    ensures forall i :: 0 <= i < |r| ==> r[i] == Trim(pieces[i])
  {
    seq(|pieces|, i requires 0 <= i < |pieces| => Trim(pieces[i]))
  }

  /** array_filter without a callback: keeps the truthy pieces, in order. */
  function KeepTruthy(pieces: seq<string>): (r: seq<string>)
    ensures forall i :: 0 <= i < |r| ==> Truthy(r[i])
    ensures (forall i :: 0 <= i < |pieces| ==> IsTrimmed(pieces[i])) ==>
              forall i :: 0 <= i < |r| ==> IsTrimmed(r[i])
    decreases |pieces|
  {
    if |pieces| == 0 then []
    else (if Truthy(pieces[0]) then [pieces[0]] else []) + KeepTruthy(pieces[1..])
  }

  lemma {:induction false} KeepTruthyAppend(a: seq<string>, b: seq<string>)
    ensures KeepTruthy(a + b) == KeepTruthy(a) + KeepTruthy(b)
    decreases |a|
  {
    if |a| == 0 {
      assert a + b == b;
    } else {
      assert (a + b)[0] == a[0];
      assert (a + b)[1..] == a[1..] + b;
      KeepTruthyAppend(a[1..], b);
    }
  }

  /** Every truthy piece survives as often as it occurs; every falsy piece is dropped. */
  lemma {:induction false} KeepTruthyCounts(pieces: seq<string>)
    ensures forall x :: multiset(KeepTruthy(pieces))[x] == if Truthy(x) then multiset(pieces)[x] else 0
    decreases |pieces|
  {
    if |pieces| > 0 {
      KeepTruthyCounts(pieces[1..]);
      assert pieces == [pieces[0]] + pieces[1..];
    }
  }

  /** A piece is kept on its own exactly when it is truthy, so the append law fixes the order. */
  lemma KeepTruthySingle(x: string)
    ensures KeepTruthy([x]) == if Truthy(x) then [x] else []
  {
    assert [x][1..] == [];
  }

  /**
   * The allow-list patterns of a magic-auth policy: no pattern for a missing
   * or empty policy, otherwise the comma-separated pieces, trimmed, without
   * the falsy ones ("" and "0").
   */
  function AllowedPatterns(magicAuth: Option<string>): (r: seq<string>)
    ensures magicAuth == None || magicAuth == Some("") ==> r == []
    ensures forall i :: 0 <= i < |r| ==> Truthy(r[i]) && IsTrimmed(r[i])
  {
    if magicAuth.None? || magicAuth.value == "" then []
    else KeepTruthy(TrimAll(Split(magicAuth.value, ',')))
  }

  /** A policy without commas is one pattern, its trimmed text, unless that is falsy. */
  lemma {:induction false} PatternsOfOnePiece(s: string)
    requires ',' !in s
    ensures AllowedPatterns(Some(s)) == if Truthy(Trim(s)) then [Trim(s)] else []
  {
    if s != "" {
      SplitNoDelimiter(s, ',');
      var t := Trim(s);
      assert TrimAll([s]) == [t];
      assert KeepTruthy([t]) == (if Truthy(t) then [t] else []) + KeepTruthy([]);
      assert AllowedPatterns(Some(s)) == KeepTruthy(TrimAll(Split(s, ',')));
      assert KeepTruthy([]) == [];
      assert AllowedPatterns(Some(s)) == KeepTruthy([t]);
    } else {
      assert Trim(s) == "";
      assert AllowedPatterns(Some(s)) == [];
    }
  }

  /**
   * The patterns of `a,b` are the patterns of `a` followed by those of `b`:
   * together with PatternsOfOnePiece this determines every policy's patterns
   * and shows that their order is the order of the text.
   */
  lemma {:induction false} PatternsOfJoin(a: string, b: string)
    ensures AllowedPatterns(Some(a + "," + b)) == AllowedPatterns(Some(a)) + AllowedPatterns(Some(b))
  {
    SplitAppend(a, b, ',');
    assert a + "," + b == a + [','] + b;
    PiecesAppend(Split(a, ','), Split(b, ','));
    PatternsUnfold(a + "," + b);
    PatternsUnfold(a);
    PatternsUnfold(b);
  }

  /** Trimming and filtering work piece by piece, so they distribute over concatenation. */
  lemma {:induction false} PiecesAppend(pa: seq<string>, pb: seq<string>)
    ensures KeepTruthy(TrimAll(pa + pb)) == KeepTruthy(TrimAll(pa)) + KeepTruthy(TrimAll(pb))
  {
    TrimAllAppend(pa, pb);
    KeepTruthyAppend(TrimAll(pa), TrimAll(pb));
  }

  lemma {:induction false} TrimAllAppend(pa: seq<string>, pb: seq<string>)
    ensures TrimAll(pa + pb) == TrimAll(pa) + TrimAll(pb)
  {
    forall i | 0 <= i < |pa| + |pb|
      ensures TrimAll(pa + pb)[i] == (TrimAll(pa) + TrimAll(pb))[i]
    {
      if i < |pa| {
        assert (pa + pb)[i] == pa[i];
      } else {
        assert (pa + pb)[i] == pb[i - |pa|];
      }
    }
  }

  lemma PatternsUnfold(s: string)
    ensures AllowedPatterns(Some(s)) == KeepTruthy(TrimAll(Split(s, ',')))
  {
    if s == "" {
      EmptyPolicyPieces();
    }
  }

  /** The empty text splits into one empty piece, which array_filter drops. */
  lemma EmptyPolicyPieces()
    ensures KeepTruthy(TrimAll(Split("", ','))) == []
  {
    assert Split("", ',') == [""];
    assert Trim("") == "";
    assert TrimAll([""]) == [""];
    assert KeepTruthy([""]) == [] + KeepTruthy([]);
  }

  class Configuration {
    var host: string
    var serverHost: string
    var port: int
    var auth: Option<string>
    var basicAuth: Option<string>
    var magicAuth: Option<string>
    var isSecureSharedUrl: bool
    var preventCORS: bool

    /**
     * Both hosts start as `host`. A magic-auth policy, even the empty one,
     * installs the freshly generated `randomSecret` as the process-wide
     * magic-auth secret; without a policy the store is left alone.
     */
    constructor(host: string, port: int, auth: Option<string>, basicAuth: Option<string>,
                preventCORS: bool, magicAuth: Option<string>,
                store: ConfigStore, randomSecret: string)
      modifies store
      ensures this.host == host && this.serverHost == host && this.port == port
      ensures this.auth == auth && this.basicAuth == basicAuth && this.magicAuth == magicAuth
      ensures this.preventCORS == preventCORS && !this.isSecureSharedUrl
      ensures magicAuth.Some? ==> store.magicAuthSecretKey == Some(randomSecret)
      ensures magicAuth.None? ==> store.magicAuthSecretKey == old(store.magicAuthSecretKey)
    {
      this.host := host;
      this.serverHost := host;
      this.port := port;
      this.auth := auth;
      this.basicAuth := basicAuth;
      this.magicAuth := magicAuth;
      this.preventCORS := preventCORS;
      this.isSecureSharedUrl := false;
      new;
      if magicAuth.Some? {
        store.magicAuthSecretKey := Some(randomSecret);
      }
    }

    function Host(): string
      reads this
    {
      host
    }

    function ServerHost(): string
      reads this
    {
      serverHost
    }

    /** Repoints shared URLs at another server; the local host is kept. */
    method SetServerHost(serverHost: string)
      modifies this
      ensures this.serverHost == serverHost
      ensures host == old(host) && port == old(port) && magicAuth == old(magicAuth)
      ensures auth == old(auth) && basicAuth == old(basicAuth)
      ensures isSecureSharedUrl == old(isSecureSharedUrl) && preventCORS == old(preventCORS)
    {
      this.serverHost := serverHost;
    }

    method SetIsSecureSharedUrl(value: bool)
      modifies this
      ensures isSecureSharedUrl == value
      ensures host == old(host) && serverHost == old(serverHost) && port == old(port)
      ensures magicAuth == old(magicAuth) && auth == old(auth) && basicAuth == old(basicAuth)
      ensures preventCORS == old(preventCORS)
    {
      isSecureSharedUrl := value;
    }

    function MagicAuth(): Option<string>
      reads this
    {
      magicAuth
    }

    function Port(): int
      reads this
    {
      port
    }

    function GetAllowedMagicAuthPatterns(): (r: seq<string>)
      reads this
      ensures magicAuth == None || magicAuth == Some("") ==> r == []
      ensures forall i :: 0 <= i < |r| ==> Truthy(r[i]) && IsTrimmed(r[i])
    {
      AllowedPatterns(magicAuth)
    }

    /**
     * The shared URL of a subdomain: `subdomain.serverHost`, followed by
     * `:port` unless the port is 443, so the port can be read back from it.
     */
    function GetUrl(subdomain: string): (r: string)
      reads this
      ensures var n := |subdomain| + 1 + |serverHost|;
        && n <= |r|
        && r[..n] == subdomain + "." + serverHost
        && (Port() == HttpsPort <==> n == |r|)
        && (Port() != HttpsPort ==> r[n] == ':' && r[n + 1..] == IntToString(Port()) && PhpIntCast(r[n + 1..]) == Port())
    {
      var suffix := if Port() == HttpsPort then "" else ":" + IntToString(Port());
      var url := subdomain + "." + serverHost + suffix;
      var n := |subdomain| + 1 + |serverHost|;
      assert url[..n] == subdomain + "." + serverHost;
      assert url[n..] == suffix;
      assert Port() != HttpsPort ==> url[n + 1..] == IntToString(Port()) by {
        if Port() != HttpsPort {
          assert url[n + 1..] == suffix[1..];
        }
      }
      IntCastRoundTrip(Port());
      url
    }
  }
}
