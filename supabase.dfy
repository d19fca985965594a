/** The Supabase client set-up in the front end: both environment values
    must be present and non-empty, and a URL without an `http` prefix gets
    `https://` in front. Creating the client is not modelled; the result is
    the URL and key it would be created with. */
module Supabase {
  import opened Wrappers
  import opened Strings

  const MissingConfigMessage: string :=
    "Please connect to Supabase using the \"Connect to Supabase\" button in the top right corner"

  /** The URL handed to the client. */
  function FormatUrl(url: string): (r: string)
    ensures StartsWith(r, "http")
    ensures StartsWith(url, "http") ==> r == url
    ensures !StartsWith(url, "http") ==> r == "https://" + url
  {
    if StartsWith(url, "http") then url else "https://" + url
  }

  /** Formatting an already formatted URL changes nothing. */
  lemma FormatUrlIdempotent(url: string)
    ensures FormatUrl(FormatUrl(url)) == FormatUrl(url)
  {
  }

  /** The prefix test is on the four letters only: a host name that happens
      to begin with `http` is passed through without a scheme. */
  lemma BareHttpHostExample()
    ensures FormatUrl("httpfoo.example") == "httpfoo.example"
    ensures FormatUrl("example.supabase.co") == "https://example.supabase.co"
  {
    assert StartsWith("httpfoo.example", "http") by {
      assert "httpfoo.example"[..4] == "http";
    }
    assert !StartsWith("example.supabase.co", "http") by {
      assert "example.supabase.co"[0] == 'e';
    }
  }

  datatype Config = Config(url: string, anonKey: string)

  datatype Setup = Client(config: Config) | Thrown(message: string)

  /** The module's top level: a JavaScript-falsy value (absent or empty)
      makes it throw before any client exists. */
  function Configure(supabaseUrl: Option<string>, supabaseAnonKey: Option<string>): (r: Setup)
    ensures r.Thrown? <==> supabaseUrl.None? || supabaseUrl.value == "" ||
                           supabaseAnonKey.None? || supabaseAnonKey.value == ""
    ensures r.Thrown? ==> r.message == MissingConfigMessage
    ensures r.Client? ==> r.config == Config(FormatUrl(supabaseUrl.value), supabaseAnonKey.value)
  {
    if supabaseUrl.None? || supabaseUrl.value == "" || supabaseAnonKey.None? || supabaseAnonKey.value == "" then
      Thrown(MissingConfigMessage)
    else
      Client(Config(FormatUrl(supabaseUrl.value), supabaseAnonKey.value))
  }
}
