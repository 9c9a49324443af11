/** The user added to every item of the service's default policies. */
module AtlasDefaults {
  import opened Wrappers

  const CONFIG_ADMIN_USER := "atlas.admin.user"

  /** `Character.isWhitespace` on the ASCII range. */
  predicate IsWhitespace(c: char)
  {
    c == ' ' || c == '\t' || c == '\n' || c == '\U{B}' || c == '\U{C}' || c == '\r' || ('\U{1C}' <= c <= '\U{1F}')
  }

  /** `StringUtils.isBlank`: null, empty, or whitespace only. */
  predicate IsBlank(s: Option<string>)
  {
    s.None? || forall i :: 0 <= i < |s.value| ==> IsWhitespace(s.value[i])
  }

  /**
   * The configured `atlas.admin.user`, or `"admin"` when that setting is blank;
   * the user added is never blank.
   */
  function AtlasAdminUser(config: map<string, string>): (u: string)
    ensures !IsBlank(Some(u))
    ensures !IsBlank(Get(config, CONFIG_ADMIN_USER)) ==> u == config[CONFIG_ADMIN_USER]
    ensures IsBlank(Get(config, CONFIG_ADMIN_USER)) ==> u == "admin"
  {
    var configured := Get(config, CONFIG_ADMIN_USER);
    assert !IsWhitespace("admin"[0]);
    if IsBlank(configured) then "admin" else configured.value
  }

  /** Each default policy item's users with the admin user appended. */
  function WithAdminUser(itemUsers: seq<seq<string>>, config: map<string, string>): (r: seq<seq<string>>)
    ensures |r| == |itemUsers|
    ensures forall k :: 0 <= k < |r| ==> |r[k]| == |itemUsers[k]| + 1 && r[k][..|itemUsers[k]|] == itemUsers[k]
    ensures forall k :: 0 <= k < |r| ==> r[k][|itemUsers[k]|] == AtlasAdminUser(config)
  {
    seq(|itemUsers|, k requires 0 <= k < |itemUsers| => itemUsers[k] + [AtlasAdminUser(config)])
  }
}
