/** The pages a sniff opens: one performer page per supported platform,
    with an unknown platform treated as the default one. */
module Seeds {

  /** The platform used when the requested one is not supported. */
  const DefaultPlatform: string := "stripchat"

  /** The performer page of `user` on each supported platform (chaturbate
      wants a trailing slash). */
  function UrlsToTry(user: string): map<string, seq<string>>
  {
    map[
      "stripchat" := ["https://stripchat.com/" + user],
      "chaturbate" := ["https://chaturbate.com/" + user + "/"],
      "jerkmate" := ["https://jerkmate.com/" + user]
    ]
  }

  /** `urls_to_try.get(platform, [stripchat page])`: the fallback is written
      out separately and is the default platform's entry. */
  function PageUrls(platform: string, user: string): (r: seq<string>)
    ensures |r| == 1
    ensures platform in UrlsToTry(user) ==> r == UrlsToTry(user)[platform]
    ensures platform !in UrlsToTry(user) ==> r == UrlsToTry(user)[DefaultPlatform]
  {
    var known := UrlsToTry(user);
    if platform in known then known[platform] else ["https://stripchat.com/" + user]
  }

  /** The platforms with an entry of their own. */
  const Platforms: set<string> := {"stripchat", "chaturbate", "jerkmate"}

  lemma KnownPlatforms(user: string)
    ensures UrlsToTry(user).Keys == Platforms
  {
  }

  /** An unknown platform opens the default platform's page of the user. */
  lemma UnknownPlatformFallsBack(platform: string, user: string)
    requires platform !in Platforms
    ensures PageUrls(platform, user) == ["https://stripchat.com/" + user]
    ensures PageUrls(platform, user) == PageUrls(DefaultPlatform, user)
  {
    KnownPlatforms(user);
  }

  /** Different users get different pages on the same platform: the user
      name is kept whole in the page URL. */
  lemma PageUrlsInjective(platform: string, user: string, other: string)
    requires PageUrls(platform, user) == PageUrls(platform, other)
    ensures user == other
  {
    var a, b := PageUrls(platform, user)[0], PageUrls(platform, other)[0];
    if platform == "chaturbate" {
      var n := |"https://chaturbate.com/"|;
      assert a[n..|a| - 1] == user;
      assert b[n..|b| - 1] == other;
    } else if platform == "jerkmate" {
      var n := |"https://jerkmate.com/"|;
      assert a[n..] == user;
      assert b[n..] == other;
    } else {
      var n := |"https://stripchat.com/"|;
      assert a[n..] == user;
      assert b[n..] == other;
    }
  }

  /** The supported platforms open three different pages for the same user. */
  lemma PlatformsOpenDifferentPages(user: string)
    ensures PageUrls("stripchat", user) != PageUrls("chaturbate", user)
    ensures PageUrls("stripchat", user) != PageUrls("jerkmate", user)
    ensures PageUrls("chaturbate", user) != PageUrls("jerkmate", user)
  {
    assert PageUrls("stripchat", user)[0][8] == 's';
    assert PageUrls("chaturbate", user)[0][8] == 'c';
    assert PageUrls("jerkmate", user)[0][8] == 'j';
  }
}
