/** The access actions that have a code in a JWT, and back.  The two tables are separate
    in the source, too.  Actions without a code, such as `fso/discover`, are absent. */
module JwtTables {
  import opened Wrappers

  function OrElse(a: Option<string>, b: Option<string>): Option<string> {
    if a.Some? then a else b
  }

  function ActionCode(action: string): Option<string> {
    OrElse(ActionCode1(action), OrElse(ActionCode2(action), ActionCode3(action)))
  }

  function ActionCode1(action: string): Option<string> {
    match action
    case "*" => Some("*")
    case "bc/*" => Some("b*")
    case "fso/*" => Some("f*")
    case "uxd/*" => Some("x*")
    case "api" => Some("a")
    case "bc/read" => Some("br")
    case "bc/write" => Some("bw")
    case "fso/admin-registry" => Some("fag")
    case "fso/admin-repo" => Some("far")
    case "fso/admin-root" => Some("fat")
    case "fso/archive-repo" => Some("fvr")
    case "fso/confirm-repo" => Some("fcr")
    case "fso/delete-root" => Some("fdt")
    case "fso/enable-discovery-path" => Some("fed")
    case "fso/exec-archive-repo" => Some("fxvr")
    case _ => None
  }

  function ActionCode2(action: string): Option<string> {
    match action
    case "fso/exec-du" => Some("fcd")
    case "fso/exec-freeze-repo" => Some("fxfr")
    case "fso/exec-ping-registry" => Some("fcpr")
    case "fso/exec-repo-freeze" => Some("fxrf")
    case "fso/exec-split-root" => Some("fcsr")
    case "fso/exec-unarchive-repo" => Some("fxuvr")
    case "fso/exec-unfreeze-repo" => Some("fxufr")
    case "fso/find" => Some("fn")
    case "fso/freeze-repo" => Some("fzr")
    case "fso/init-registry" => Some("fig")
    case "fso/init-repo" => Some("fir")
    case "fso/init-repo-shadow-backup" => Some("fib")
    case "fso/init-repo-tartt" => Some("fia")
    case "fso/init-root" => Some("fit")
    case "fso/issue-sys-token" => Some("fts")
    case _ => None
  }

  function ActionCode3(action: string): Option<string> {
    match action
    case "fso/issue-user-token" => Some("ftu")
    case "fso/read-main" => Some("frm")
    case "fso/read-registry" => Some("frg")
    case "fso/read-repo" => Some("frr")
    case "fso/read-root" => Some("frt")
    case "fso/refresh-repo" => Some("ffr")
    case "fso/session" => Some("fs")
    case "fso/test-udo" => Some("fttu")
    case "fso/test-udo-as" => Some("ftta")
    case "fso/unarchive-repo" => Some("fuvr")
    case "fso/unfreeze-repo" => Some("fuzr")
    case "fso/write-repo" => Some("fwr")
    case "uxd/init-unix-domain" => Some("xid")
    case "uxd/read-unix-domain" => Some("xrd")
    case "uxd/write-unix-domain" => Some("xwd")
    case _ => None
  }

  function JwtAAToAction(aa: string): Option<string> {
    match aa
    case "*" => Some("*")
    case "b*" => Some("bc/*")
    case "f*" => Some("fso/*")
    case "x*" => Some("uxd/*")
    case "a" => Some("api")
    case "br" => Some("bc/read")
    case "bw" => Some("bc/write")
    case "fag" => Some("fso/admin-registry")
    case "far" => Some("fso/admin-repo")
    case "fat" => Some("fso/admin-root")
    case "fcd" => Some("fso/exec-du")
    case "fcpr" => Some("fso/exec-ping-registry")
    case "fcr" => Some("fso/confirm-repo")
    case "fcsr" => Some("fso/exec-split-root")
    case "fdt" => Some("fso/delete-root")
    case "fed" => Some("fso/enable-discovery-path")
    case "ffr" => Some("fso/refresh-repo")
    case "fia" => Some("fso/init-repo-tartt")
    case "fib" => Some("fso/init-repo-shadow-backup")
    case "fig" => Some("fso/init-registry")
    case "fir" => Some("fso/init-repo")
    case "fit" => Some("fso/init-root")
    case "fn" => Some("fso/find")
    case "frg" => Some("fso/read-registry")
    case "frm" => Some("fso/read-main")
    case "frr" => Some("fso/read-repo")
    case "frt" => Some("fso/read-root")
    case "fs" => Some("fso/session")
    case "fts" => Some("fso/issue-sys-token")
    case "ftta" => Some("fso/test-udo-as")
    case "fttu" => Some("fso/test-udo")
    case "ftu" => Some("fso/issue-user-token")
    case "fuvr" => Some("fso/unarchive-repo")
    case "fuzr" => Some("fso/unfreeze-repo")
    case "fvr" => Some("fso/archive-repo")
    case "fwr" => Some("fso/write-repo")
    case "fxfr" => Some("fso/exec-freeze-repo")
    case "fxrf" => Some("fso/exec-repo-freeze")
    case "fxufr" => Some("fso/exec-unfreeze-repo")
    case "fxuvr" => Some("fso/exec-unarchive-repo")
    case "fxvr" => Some("fso/exec-archive-repo")
    case "fzr" => Some("fso/freeze-repo")
    case "xid" => Some("uxd/init-unix-domain")
    case "xrd" => Some("uxd/read-unix-domain")
    case "xwd" => Some("uxd/write-unix-domain")
    case _ => None
  }

  lemma Page1RoundTrip(action: string)
    requires ActionCode1(action).Some?
    ensures JwtAAToAction(ActionCode1(action).value) == Some(action)
  {
  }

  lemma Page2RoundTrip(action: string)
    requires ActionCode2(action).Some?
    ensures JwtAAToAction(ActionCode2(action).value) == Some(action)
  {
  }

  lemma Page3RoundTrip(action: string)
    requires ActionCode3(action).Some?
    ensures JwtAAToAction(ActionCode3(action).value) == Some(action)
  {
  }

  /** Decoding the code of an action gives back the action. */
  lemma CodeRoundTrip(action: string)
    requires ActionCode(action).Some?
    ensures JwtAAToAction(ActionCode(action).value) == Some(action)
  {
    if ActionCode1(action).Some? {
      Page1RoundTrip(action);
    } else if ActionCode2(action).Some? {
      Page2RoundTrip(action);
    } else {
      Page3RoundTrip(action);
    }
  }
}
