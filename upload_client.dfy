/**
 The upload client: the storage URL the dump is posted to, the authorization
 header, and the request that carries the dump's text. Sending the request is
 a network call and is not modelled; the request value is the URL string,
 header and body handed to the HTTP client, whose own URL parsing and
 header-value check are not part of this model.
 */
module UploadClient {
  import opened Wrappers
  import opened Utf8
  import Decimal
  import opened DumpProducer

  /** The scheme and host, written with a trailing slash. */
  const StorageHost := "https://www.googleapis.com/"

  /** Everything before the bucket name: the host, then a path that starts with a second '/'. */
  const UploadPrefix := StorageHost + "/upload/storage/v1/b/"

  /** Everything between the bucket name and the object name. */
  const MediaQuery := "/o?uploadType=media&name="

  /** The name of the uploaded object: the epoch seconds in decimal, then ".sql". */
  function ObjectName(t: Timestamp): (name: string)
    ensures |name| > 4 && name[|name| - 4..] == ".sql"
    ensures Decimal.Parse(name[..|name| - 4]) == Some(t.epochSeconds)
    ensures Decimal.IsCanonical(name[..|name| - 4])
  {
    var secs := Decimal.Render(t.epochSeconds);
    Decimal.ParseRender(t.epochSeconds);
    assert (secs + ".sql")[..|secs|] == secs;
    secs + ".sql"
  }

  /** The URL format regrouped around the bucket and the object name. */
  lemma UriLayout(bucket: string, name: string)
    ensures StorageHost + ("/upload/storage/v1/b/" + bucket + "/o") + ("?uploadType=media&name=" + name)
         == UploadPrefix + bucket + MediaQuery + name
  {
    assert MediaQuery == "/o" + "?uploadType=media&name=";
    assert UploadPrefix == StorageHost + "/upload/storage/v1/b/";
  }

  /** An HTTP header. */
  datatype Header = Header(name: string, value: string)

  /** A POST of `body` to `url` with an Authorization header. */
  datatype UploadRequest = Post(url: string, authorization: Header, body: string)

  datatype GcsClient = GcsClient(bucket: string, oauthToken: string, dump: SqlDump) {

    /**
     The media-upload URL for the dump: the bucket after the fixed prefix,
     then the query naming the object after the dump's timestamp.
     */
    function BuildStorageUri(): (uri: string)
      ensures uri == UploadPrefix + bucket + MediaQuery + ObjectName(dump.timestamp)
    {
      var path := "/upload/storage/v1/b/" + bucket + "/o";
      var query := "?uploadType=media&name=" + ObjectName(dump.timestamp);
      UriLayout(bucket, ObjectName(dump.timestamp));
      StorageHost + path + query
    }

    /** The Authorization header: the Bearer scheme, one space, and the token verbatim. */
    function Authorization(): (h: Header)
      ensures h.name == "Authorization"
      ensures |h.value| == 7 + |oauthToken| && h.value[..7] == "Bearer " && h.value[7..] == oauthToken
    {
      Header("Authorization", "Bearer " + oauthToken)
    }

    /**
     The request `send` issues: the storage URL, the Authorization header and
     the dump as text. A dump that is not UTF-8 stops here, before the request
     is built, with the decoding error; the body is never a repaired or shortened text.
     */
    function BuildRequest(): (r: Result<UploadRequest, Utf8Error>)
      ensures r.Ok? <==> WellFormed(dump.sql)
      ensures r.Ok? ==> r.value.url == BuildStorageUri() && r.value.authorization == Authorization()
      ensures r.Ok? ==> Encode(r.value.body) == dump.sql
      ensures r.Err? ==> r.error == dump.ToStr().error
    {
      var url := BuildStorageUri();
      var authorization := Authorization();
      match dump.ToStr()
      case Ok(text) => Ok(Post(url, authorization, text))
      case Err(e) => Err(e)
    }
  }

  /**
   The URL depends on the bucket and on the timestamp's whole seconds and on
   nothing else: two clients get the same URL exactly when their buckets and
   epoch seconds agree.
   */
  lemma StorageUriDeterminedBy(c1: GcsClient, c2: GcsClient)
    ensures c1.BuildStorageUri() == c2.BuildStorageUri()
        <==> c1.bucket == c2.bucket && c1.dump.timestamp.epochSeconds == c2.dump.timestamp.epochSeconds
  {
    var u1, u2 := c1.BuildStorageUri(), c2.BuildStorageUri();
    var n1, n2 := ObjectName(c1.dump.timestamp), ObjectName(c2.dump.timestamp);
    var p := |UploadPrefix|;
    if u1 == u2 {
      if |c1.bucket| < |c2.bucket| {
        ShorterBucketDiffers(c1.bucket, c2.bucket, c1.dump.timestamp, c2.dump.timestamp);
      } else if |c2.bucket| < |c1.bucket| {
        ShorterBucketDiffers(c2.bucket, c1.bucket, c2.dump.timestamp, c1.dump.timestamp);
      }
      UriParts(c1.bucket, n1);
      UriParts(c2.bucket, n2);
      assert n1 == n2;
      assert n1[..|n1| - 4] == n2[..|n2| - 4];
    }
  }

  /** Where the bucket name and the object name sit in the URL. */
  lemma UriParts(bucket: string, name: string)
    ensures var u := UploadPrefix + bucket + MediaQuery + name;
      && u[|UploadPrefix|..|UploadPrefix| + |bucket|] == bucket
      && u[|UploadPrefix| + |bucket| + |MediaQuery|..] == name
  {
  }

  /**
   A shorter bucket cannot give the same URL: where the longer bucket's URL
   has the '=' that ends the query, the other URL is inside the epoch
   seconds, which hold only digits and a sign.
   */
  lemma ShorterBucketDiffers(b1: string, b2: string, t1: Timestamp, t2: Timestamp)
    requires |b1| < |b2|
    ensures UploadPrefix + b1 + MediaQuery + ObjectName(t1) != UploadPrefix + b2 + MediaQuery + ObjectName(t2)
  {
    var n1, n2 := ObjectName(t1), ObjectName(t2);
    var u1, u2 := UploadPrefix + b1 + MediaQuery + n1, UploadPrefix + b2 + MediaQuery + n2;
    if |u1| == |u2| {
      var k := |UploadPrefix| + |b2| + |MediaQuery| - 1;
      var i := k - (|UploadPrefix| + |b1| + |MediaQuery|);
      assert u2[k] == MediaQuery[|MediaQuery| - 1] == '=';
      assert u1[k] == n1[i];
      assert n1[i] == n1[..|n1| - 4][i];
      Decimal.CanonicalChar(n1[..|n1| - 4], i);
    }
  }

  /** The double slash after the host that the URL format produces. */
  lemma StorageUriDoubleSlash(c: GcsClient)
    ensures c.BuildStorageUri()[..|StorageHost| + 1] == "https://www.googleapis.com//"
  {
    assert c.BuildStorageUri()[..|StorageHost| + 1] == UploadPrefix[..|StorageHost| + 1];
  }

  /**
   End to end, as the program wires the two components: the body of the built request is the
   captured standard output, byte for byte, whatever the exit status of the
   dump; the request is not built exactly when that output is not UTF-8.
   */
  lemma UploadedBodyIsStdout(config: SqlConfig, mysqldump: Command -> CommandOutput, now: Timestamp,
                             bucket: string, oauthToken: string)
    ensures var out := mysqldump(Command(MysqldumpPath, Dumper(config).BuildArgs()));
      var request := GcsClient(bucket, oauthToken, Dumper(config).Exec(mysqldump, now).dump).BuildRequest();
      && (request.Ok? <==> WellFormed(out.stdout))
      && (request.Ok? ==> Encode(request.value.body) == out.stdout)
      && (request.Ok? ==> request.value.url == UploadPrefix + bucket + MediaQuery + ObjectName(now))
  {
  }

  /** A worked example: bucket "b1", token "tok", an instant at epoch second 1700000000. */
  lemma ExampleRequest(nanos: nat)
    ensures GcsClient("b1", "tok", SqlDump(Timestamp(1700000000, nanos), [])).BuildRequest()
      == Ok(Post(UploadPrefix + "b1" + MediaQuery + "1700000000" + ".sql", Header("Authorization", "Bearer tok"), ""))
  {
    var c := GcsClient("b1", "tok", SqlDump(Timestamp(1700000000, nanos), []));
    assert Decimal.NatDigits(1) == "1";
    assert Decimal.NatDigits(17) == "17";
    assert Decimal.NatDigits(170) == "170";
    assert Decimal.NatDigits(1700) == "1700";
    assert Decimal.NatDigits(17000) == "17000";
    assert Decimal.NatDigits(170000) == "170000";
    assert Decimal.NatDigits(1700000) == "1700000";
    assert Decimal.NatDigits(17000000) == "17000000";
    assert Decimal.NatDigits(170000000) == "170000000";
    assert Decimal.Render(1700000000) == "1700000000";
    assert c.Authorization() == Header("Authorization", "Bearer tok");
    assert c.dump.ToStr() == Ok("");
    assert ObjectName(c.dump.timestamp) == "1700000000" + ".sql";
    assert c.BuildStorageUri() == UploadPrefix + "b1" + MediaQuery + ("1700000000" + ".sql");
    var head := UploadPrefix + "b1" + MediaQuery;
    assert head + ("1700000000" + ".sql") == head + "1700000000" + ".sql";
  }
}
