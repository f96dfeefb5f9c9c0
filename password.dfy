/** The password-policy script: four answers set options of /etc/login.defs, four more
    set options of /etc/security/pwquality.conf, and each file is patched with its own
    copy of the patcher, login.defs first. */
module PasswordPolicy {
  import opened Base
  import opened Patcher
  import opened Machine
  import opened Inline

  const LoginDefsPath := "/etc/login.defs"
  const PwQualityPath := "/etc/security/pwquality.conf"

  /** The login.defs options from the first four answers, each defaulting to the
      recommended value when no text is typed. */
  function LoginDefsOptions(a: seq<Answer>): (m: map<string, string>)
    ensures m.Keys == {"PASS_MIN_DAYS", "PASS_MAX_DAYS", "ENCRYPT_METHOD", "LOGIN_RETRIES"}
  {
    map["PASS_MIN_DAYS" := ResponseOr(a, "7"),
        "PASS_MAX_DAYS" := ResponseOr(Skip(a, 1), "30"),
        "ENCRYPT_METHOD" := ResponseOr(Skip(a, 2), "SHA512"),
        "LOGIN_RETRIES" := ResponseOr(Skip(a, 3), "3")]
  }

  /** The pwquality options from the four answers that follow: the minimum length, then
      three yes/no choices. */
  function PwQualityOptions(a: seq<Answer>): (m: map<string, string>)
    ensures m.Keys == {"minlen", "dcredit", "ucredit", "ocredit", "lcredit", "dictcheck", "usercheck"}
    ensures m["dcredit"] == m["ucredit"] == m["ocredit"] == m["lcredit"]
    ensures m["dcredit"] == (if Confirmed(Skip(a, 1)) then "-1" else "0")
    ensures m["dictcheck"] == (if Confirmed(Skip(a, 2)) then "1" else "0")
    ensures m["usercheck"] == (if Confirmed(Skip(a, 3)) then "1" else "0")
  {
    var credit := if Confirmed(Skip(a, 1)) then "-1" else "0";
    map["minlen" := ResponseOr(a, "8"),
        "dcredit" := credit, "ucredit" := credit, "ocredit" := credit, "lcredit" := credit,
        "dictcheck" := if Confirmed(Skip(a, 2)) then "1" else "0",
        "usercheck" := if Confirmed(Skip(a, 3)) then "1" else "0"]
  }

  /** An operator who types nothing gets the recommended login.defs values. */
  lemma RecommendedDefaults(a: seq<Answer>)
    requires forall i :: 0 <= i < 4 && i < |a| ==> !a[i].Text?
    ensures LoginDefsOptions(a) == map["PASS_MIN_DAYS" := "7", "PASS_MAX_DAYS" := "30",
                                       "ENCRYPT_METHOD" := "SHA512", "LOGIN_RETRIES" := "3"]
  {
    if |a| > 3 {
      assert Skip(a, 3)[0] == a[3];
    }
  }

  /** The four login.defs prompts. */
  method AskLoginDefs(h: Host) returns (opts: map<string, string>)
    modifies h`answers
    ensures opts == LoginDefsOptions(old(h.answers)) && h.answers == Skip(old(h.answers), 4)
  {
    ghost var a := h.answers;
    var minDays := h.RawResponseWithDefault("7");
    var maxDays := h.RawResponseWithDefault("30");
    var encrypt := h.RawResponseWithDefault("SHA512");
    var retries := h.RawResponseWithDefault("3");
    opts := map["PASS_MIN_DAYS" := minDays, "PASS_MAX_DAYS" := maxDays,
                "ENCRYPT_METHOD" := encrypt, "LOGIN_RETRIES" := retries];
  }

  /** The four pwquality prompts. */
  method AskPwQuality(h: Host) returns (opts: map<string, string>)
    modifies h`answers
    ensures opts == PwQualityOptions(old(h.answers)) && h.answers == Skip(old(h.answers), 4)
  {
    ghost var a := h.answers;
    var minLen := h.RawResponseWithDefault("8");
    opts := map["minlen" := minLen];
    var complex := h.Confirm();
    var credit := if complex then "-1" else "0";
    opts := opts["dcredit" := credit]["ucredit" := credit]["ocredit" := credit]["lcredit" := credit];
    var dict := h.Confirm();
    opts := opts["dictcheck" := if dict then "1" else "0"];
    var user := h.Confirm();
    opts := opts["usercheck" := if user then "1" else "0"];
  }

  /** `PasswordSetup.Run`. The eight prompts come first; login.defs is then patched and
      written before pwquality.conf is read, so a failure at pwquality.conf leaves
      login.defs already changed. */
  method Run(h: Host) returns (err: Outcome)
    modifies h`files, h`answers
    ensures h.answers == Skip(old(h.answers), 8)
    ensures exists mid, first ::
      PatchEffect(LoginDefs, LoginDefsOptions(old(h.answers)), LoginDefsPath, h.readOnly,
                  old(h.files), mid, first, "unable to read /etc/login.defs: ",
                  "unable to write to /etc/login.defs: ") &&
      (first.Failure? ==> err == first && h.files == mid) &&
      (first.Success? ==>
         PatchEffect(PwQuality, PwQualityOptions(Skip(old(h.answers), 4)), PwQualityPath, h.readOnly,
                     mid, h.files, err, "unable to read /etc/security/pwquality.conf: ",
                     "unable to write to /etc/security/pwquality.conf: "))
  {
    ghost var a := h.answers;
    var loginDefOpts := AskLoginDefs(h);
    var pwQualityOpts := AskPwQuality(h);
    var first := PatchFile(h, LoginDefs, LoginDefsPath, loginDefOpts,
                           "unable to read /etc/login.defs: ", "unable to write to /etc/login.defs: ");
    ghost var mid := h.files;
    if first.Failure? {
      return first;
    }
    err := PatchFile(h, PwQuality, PwQualityPath, pwQualityOpts,
                     "unable to read /etc/security/pwquality.conf: ",
                     "unable to write to /etc/security/pwquality.conf: ");
  }
}
