// The project-level report service: findings are recorded in a table keyed
// by their signature, marked when fixed, and handed off in batches.

module Feedback {
  import opened Wrappers
  import opened JavaString
  import opened GitInfoEntity

  /** The table is handed off before an insert once it holds more than this many findings. */
  const PostDataMinNum: nat := 30

  /** One recorded finding: the JSON properties the service sets on it. */
  datatype Vuln = Vuln(projectName: string, fqname: Option<string>, message: string, elemText: string, status: Option<int>)

  type Table = map<int, Vuln>

  /** A finding as markupVuln records it: no status yet. */
  function NewVuln(projectName: string, fqname: Option<string>, message: string, elemText: string): Vuln {
    Vuln(projectName, fqname, message, elemText, None)
  }

  /** The snapshot markupVuln hands off before inserting, if it hands one off. */
  function MarkupFlush(t: Table, sign: int): (r: Option<Table>)
    ensures r.Some? <==> sign !in t && |t| > PostDataMinNum
    ensures r.Some? ==> r.value == t
  {
    if sign in t then None
    else if |t| > PostDataMinNum then Some(t)
    else None
  }

  /** The table after markupVuln: unchanged for a known signature; otherwise emptied first when over the threshold, then extended. */
  function Markup(t: Table, sign: int, v: Vuln): (r: Table)
    ensures sign in r && r[sign] == if sign in t then t[sign] else v
    ensures sign in t ==> r == t
    ensures sign !in t && |t| <= PostDataMinNum ==> r == t[sign := v]
    ensures sign !in t && |t| > PostDataMinNum ==> r == map[sign := v]
  {
    if sign in t then t
    else
      var base := if |t| > PostDataMinNum then map[] else t;
      base[sign := v]
  }

  /** markupVulnFix: a recorded finding gets status 1; nothing else changes. */
  function MarkFixed(t: Table, sign: int): (r: Table)
    ensures r.Keys == t.Keys
    ensures forall k | k in t && k != sign :: r[k] == t[k]
    ensures sign in t ==> r[sign] == t[sign].(status := Some(1))
  {
    if sign in t then t[sign := t[sign].(status := Some(1))] else t
  }

  /** The table never holds more than one finding past the threshold. */
  lemma MarkupBounded(t: Table, sign: int, v: Vuln)
    requires |t| <= PostDataMinNum + 1
    ensures |Markup(t, sign, v)| <= PostDataMinNum + 1
  {
    if sign !in t {
      if |t| > PostDataMinNum {
        assert map[sign := v].Keys == {sign};
      } else {
        assert t[sign := v].Keys == t.Keys + {sign};
      }
    }
  }

  /** Recording the same signature again changes nothing: the first record stays. */
  lemma MarkupIdempotent(t: Table, sign: int, v: Vuln, w: Vuln)
    ensures Markup(Markup(t, sign, v), sign, w) == Markup(t, sign, v)
    ensures MarkupFlush(Markup(t, sign, v), sign).None?
  {
  }

  /** Below the threshold nothing recorded is lost. */
  lemma MarkupKeepsOthers(t: Table, sign: int, v: Vuln)
    requires |t| <= PostDataMinNum
    ensures forall k | k in t :: k in Markup(t, sign, v) && Markup(t, sign, v)[k] == t[k]
  {
  }

  /** Marking a finding fixed is idempotent and keeps every other finding. */
  lemma MarkFixedIdempotent(t: Table, sign: int)
    ensures MarkFixed(MarkFixed(t, sign), sign) == MarkFixed(t, sign)
  {
    if sign in t {
      var once := MarkFixed(t, sign);
      assert once[sign].(status := Some(1)) == once[sign];
      assert once[sign := once[sign]] == once;
    }
  }

  /** markupVuln loses nothing: every finding of the old table is either still recorded or in the snapshot handed off. */
  lemma MarkupLosesNothing(t: Table, sign: int, v: Vuln)
    ensures forall k | k in t :: (k in Markup(t, sign, v) && Markup(t, sign, v)[k] == t[k])
                                 || (MarkupFlush(t, sign).Some? && k in MarkupFlush(t, sign).value)
  {
  }

  /** What the service posts for a snapshot. */
  datatype Payload = Payload(gitInfo: string, user: string, pluginVersion: string, vulns: Table)

  /**
   * The private feedbackMarkupVulns: nothing for an empty snapshot;
   * otherwise the snapshot with the git address and user, or their "null"
   * defaults when there is no git info.
   */
  function PayloadOf(vulns: Table, git: Option<(string, string)>, pluginVersion: string): (r: Option<Payload>)
    ensures r.None? <==> vulns == map[]
    ensures r.Some? ==> r.value.vulns == vulns && r.value.pluginVersion == pluginVersion
    ensures r.Some? && git.None? ==> r.value.gitInfo == "null (null)" && r.value.user == "null<null>"
    ensures r.Some? && git.Some? ==> r.value.gitInfo == git.value.0 && r.value.user == git.value.1
  {
    if |vulns| == 0 then None
    else
      var gitInfoString := if git.Some? then git.value.0 else "null (null)";
      var user := if git.Some? then git.value.1 else "null<null>";
      Some(Payload(gitInfoString, user, pluginVersion, vulns))
  }

  /** A missing git info posts the same texts as a git info with nothing set. */
  lemma MissingGitInfoAsUnset(vulns: Table, pluginVersion: string)
    requires vulns != map[]
    ensures PayloadOf(vulns, None, pluginVersion)
            == PayloadOf(vulns, Some((AddrWithBranchText(None, None), UserWithEmailText(None, None))), pluginVersion)
  {
    UnsetPrintsNull();
  }

  /**
   * FeedbackService: the live table, the snapshots handed to the sending
   * thread, and the git info as its two formatted texts (address with
   * branch, user with email), absent when it could not be read.
   */
  class FeedbackService {
    const projectName: string
    var vulns: Table
    var handedOff: seq<Table>
    var gitInfo: Option<(string, string)>

    predicate Valid() reads this {
      |vulns| <= PostDataMinNum + 1
    }

    constructor (projectName: string, gitInfo: Option<(string, string)>)
      ensures Valid() && this.projectName == projectName
      ensures vulns == map[] && handedOff == [] && this.gitInfo == gitInfo
    {
      this.projectName := projectName;
      vulns := map[];
      handedOff := [];
      this.gitInfo := gitInfo;
    }

    /** The public feedbackMarkupVulns: hand a copy of the table to the sender and empty it. */
    method FeedbackMarkupVulns()
      modifies this
      ensures vulns == map[] && handedOff == old(handedOff) + [old(vulns)]
      ensures gitInfo == old(gitInfo)
    {
      handedOff := handedOff + [vulns];
      vulns := map[];
    }

    /** markupVuln for a finding with the given signature. */
    method MarkupVuln(sign: int, fqname: Option<string>, elemText: string, message: string)
      requires Valid()
      modifies this
      ensures Valid()
      ensures vulns == Markup(old(vulns), sign, NewVuln(projectName, fqname, message, elemText))
      ensures handedOff == old(handedOff) + (var f := MarkupFlush(old(vulns), sign); if f.Some? then [f.value] else [])
      ensures gitInfo == old(gitInfo)
    {
      if sign in vulns {
        return;
      }
      if |vulns| > PostDataMinNum {
        FeedbackMarkupVulns();
      }
      MarkupBounded(vulns, sign, NewVuln(projectName, fqname, message, elemText));
      vulns := vulns[sign := NewVuln(projectName, fqname, message, elemText)];
    }

    /** markupVulnFix for the finding with the given signature. */
    method MarkupVulnFix(sign: int)
      requires Valid()
      modifies this`vulns
      ensures Valid()
      ensures vulns == MarkFixed(old(vulns), sign)
    {
      if sign in vulns {
        vulns := vulns[sign := vulns[sign].(status := Some(1))];
      }
    }

    /** dispose: post the live table, if it holds anything, and empty it. */
    method Dispose(pluginVersion: string) returns (posted: Option<Payload>)
      modifies this`vulns
      ensures posted == PayloadOf(old(vulns), gitInfo, pluginVersion)
      ensures vulns == map[]
    {
      if |vulns| == 0 {
        return None;
      }
      var gitInfoString := "null (null)";
      var user := "null<null>";
      if gitInfo.Some? {
        gitInfoString := gitInfo.value.0;
        user := gitInfo.value.1;
      }
      posted := Some(Payload(gitInfoString, user, pluginVersion, vulns));
      vulns := map[];
    }
  }
}
