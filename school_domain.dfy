/**
 * The domain filter: only downloads whose URL host ends with the school's
 * domain name are processed. Parsing a URL is the host's job; it is given
 * to the model as a function that yields the hostname, or None where the
 * `URL` constructor would throw.
 */
module SchoolDomain {
  import opened JsText

  /** The suffix the hostname is tested against. */
  const SchoolSuffix: JsString := Ascii("handong.edu")

  /** `isFromSchool`: parse the URL; a parse failure means "not from school". */
  function IsFromSchool(urlStr: JsString, hostname: JsString -> Option<JsString>): bool {
    match hostname(urlStr)
    case None => false
    case Some(host) => EndsWith(host, SchoolSuffix)
  }

  /**
   * A URL is from school exactly when it parses and its hostname is some
   * string, possibly empty, followed by "handong.edu". There is no dot
   * boundary: any prefix at all is accepted.
   */
  lemma IsFromSchoolIff(urlStr: JsString, hostname: JsString -> Option<JsString>)
    ensures IsFromSchool(urlStr, hostname) <==>
      hostname(urlStr).Some? && exists front: JsString :: hostname(urlStr).value == front + SchoolSuffix
  {
    if hostname(urlStr).Some? {
      EndsWithIffConcat(hostname(urlStr).value, SchoolSuffix);
    }
  }

  /** An unparsable URL is never from school. */
  lemma UnparsableIsNotFromSchool(urlStr: JsString, hostname: JsString -> Option<JsString>)
    requires hostname(urlStr) == None
    ensures !IsFromSchool(urlStr, hostname)
  {
  }

  /** The bare domain, a subdomain and a look-alike without a dot are all accepted. */
  lemma SuffixWithoutDotBoundary(urlStr: JsString, hostname: JsString -> Option<JsString>)
    requires hostname(urlStr) in {Some(Ascii("handong.edu")), Some(Ascii("www.handong.edu")), Some(Ascii("xhandong.edu"))}
    ensures IsFromSchool(urlStr, hostname)
  {
    var host := hostname(urlStr).value;
    assert host == host[..|host| - |SchoolSuffix|] + SchoolSuffix;
    IsFromSchoolIff(urlStr, hostname);
  }

  /** A hostname that merely contains the domain, or lacks its last letter, is refused. */
  lemma SchoolNameNotAtEnd(urlStr: JsString, hostname: JsString -> Option<JsString>)
    requires hostname(urlStr) in {Some(Ascii("handong.edu.example.com")), Some(Ascii("handong.ed"))}
    ensures !IsFromSchool(urlStr, hostname)
  {
    var host := hostname(urlStr).value;
    if |host| >= |SchoolSuffix| {
      assert host[|host| - 1] != SchoolSuffix[|SchoolSuffix| - 1];
    }
  }
}
