// The git identity attached to reported findings: four nullable strings
// with setters, getters and two formatted views.

module GitInfoEntity {
  import opened Wrappers
  import opened JavaString

  /** The position of the first `c` in `s`, or |s| when there is none. */
  function IndexOf(s: string, c: char): (i: nat)
    ensures i <= |s|
    ensures i < |s| ==> s[i] == c
    ensures c !in s[..i]
  {
    if s == [] then 0
    else if s[0] == c then 0
    else
      var i := 1 + IndexOf(s[1..], c);
      assert s[..i] == [s[0]] + s[1..][..i - 1];
      i
  }

  /** Text without `c` in front moves the first `c` by its length. */
  lemma {:induction false} IndexOfAfter(a: string, b: string, c: char)
    requires c !in a
    ensures IndexOf(a + b, c) == |a| + IndexOf(b, c)
  {
    if a != [] {
      assert (a + b)[0] == a[0] && (a + b)[1..] == a[1..] + b;
      IndexOfAfter(a[1..], b, c);
    } else {
      assert a + b == b;
    }
  }

  /** getUserWithEmail on the two fields: "name<email>", null fields printed as "null". */
  function UserWithEmailText(userName: Option<string>, userEmail: Option<string>): string {
    OrNull(userName) + "<" + OrNull(userEmail) + ">"
  }

  /** getGitAddrWithBranch on the two fields: "address (branch)", null fields printed as "null". */
  function AddrWithBranchText(address: Option<string>, branch: Option<string>): string {
    OrNull(address) + " (" + OrNull(branch) + ")"
  }

  /** Reading a "name<email>" text back: the text before the first '<', and what lies between it and the final character. */
  function ParseUserWithEmail(s: string): (r: Option<(string, string)>) {
    var i := IndexOf(s, '<');
    if i < |s| && s[|s| - 1] == '>' && i < |s| - 1 then Some((s[..i], s[i + 1..|s| - 1])) else None
  }

  /** Reading an "address (branch)" text back: the text before the first " (", and what lies between it and the final character. */
  function ParseAddrWithBranch(s: string): (r: Option<(string, string)>) {
    var i := IndexOf(s, '(');
    if 1 <= i < |s| - 1 && s[i - 1] == ' ' && s[|s| - 1] == ')' then Some((s[..i - 1], s[i + 1..|s| - 1])) else None
  }

  /** A user name without '<' and its email are read back from the formatted text. */
  lemma UserWithEmailRoundTrip(userName: Option<string>, userEmail: Option<string>)
    requires '<' !in OrNull(userName)
    ensures ParseUserWithEmail(UserWithEmailText(userName, userEmail)) == Some((OrNull(userName), OrNull(userEmail)))
  {
    var n, e := OrNull(userName), OrNull(userEmail);
    var s := UserWithEmailText(userName, userEmail);
    assert s == n + ("<" + e + ">");
    IndexOfAfter(n, "<" + e + ">", '<');
    assert s[..|n|] == n;
    assert s[|n| + 1..|s| - 1] == e;
  }

  /** An address without '(' and its branch are read back from the formatted text. */
  lemma AddrWithBranchRoundTrip(address: Option<string>, branch: Option<string>)
    requires '(' !in OrNull(address)
    ensures ParseAddrWithBranch(AddrWithBranchText(address, branch)) == Some((OrNull(address), OrNull(branch)))
  {
    var a, b := OrNull(address), OrNull(branch);
    var s := AddrWithBranchText(address, branch);
    assert s == (a + " ") + ("(" + b + ")");
    assert '(' !in a + " ";
    IndexOfAfter(a + " ", "(" + b + ")", '(');
    assert s[..|a|] == a;
    assert s[|a| + 2..|s| - 1] == b;
  }

  /** A git info with nothing set prints the same texts as a missing one. */
  lemma UnsetPrintsNull()
    ensures UserWithEmailText(None, None) == "null<null>"
    ensures AddrWithBranchText(None, None) == "null (null)"
  {
  }

  /** The entity: each field holds the last value set, null until then. */
  class GitInfo {
    var address: Option<string>
    var branch: Option<string>
    var userName: Option<string>
    var userEmail: Option<string>

    constructor ()
      ensures address.None? && branch.None? && userName.None? && userEmail.None?
    {
      address, branch, userName, userEmail := None, None, None, None;
    }

    function GetAddress(): Option<string> reads this { address }
    function GetBranch(): Option<string> reads this { branch }
    function GetUserName(): Option<string> reads this { userName }
    function GetUserEmail(): Option<string> reads this { userEmail }

    method SetAddress(a: Option<string>)
      modifies this
      ensures GetAddress() == a
      ensures branch == old(branch) && userName == old(userName) && userEmail == old(userEmail)
    {
      address := a;
    }

    method SetBranch(b: Option<string>)
      modifies this
      ensures GetBranch() == b
      ensures address == old(address) && userName == old(userName) && userEmail == old(userEmail)
    {
      branch := b;
    }

    method SetUserName(n: Option<string>)
      modifies this
      ensures GetUserName() == n
      ensures address == old(address) && branch == old(branch) && userEmail == old(userEmail)
    {
      userName := n;
    }

    method SetUserEmail(e: Option<string>)
      modifies this
      ensures GetUserEmail() == e
      ensures address == old(address) && branch == old(branch) && userName == old(userName)
    {
      userEmail := e;
    }

    function UserWithEmail(): string reads this {
      UserWithEmailText(userName, userEmail)
    }

    function GitAddrWithBranch(): string reads this {
      AddrWithBranchText(address, branch)
    }
  }
}
