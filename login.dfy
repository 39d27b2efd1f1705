/** The login page: a fixed user name and password, checked when the form is
    submitted. The user name is trimmed the way `String.prototype.trim` trims,
    the password is taken as typed, and both are compared exactly. */
module Login {
  import opened Wrappers

  /** The code points `trim` removes: the ECMAScript white space characters
      (tab, vertical tab, form feed, space, no-break space, byte order mark
      and the other space separators) and the line terminators. */
  predicate IsJsWhitespace(c: char) {
    || c == '\t' || c == '\n' || c == '\U{000B}' || c == '\U{000C}' || c == '\r' || c == ' '
    || c == '\U{00A0}' || c == '\U{1680}' || ('\U{2000}' <= c <= '\U{200A}')
    || c == '\U{2028}' || c == '\U{2029}' || c == '\U{202F}' || c == '\U{205F}'
    || c == '\U{3000}' || c == '\U{FEFF}'
  }

  predicate AllWhitespace(s: string) {
    forall i :: 0 <= i < |s| ==> IsJsWhitespace(s[i])
  }

  /** Drops the leading white space: what is dropped is all white space and
      what is left starts with something else. */
  function TrimStart(s: string): (r: string)
    ensures |r| <= |s| && r == s[|s| - |r|..]
    ensures AllWhitespace(s[..|s| - |r|])
    ensures r == [] || !IsJsWhitespace(r[0])
  {
    if s != [] && IsJsWhitespace(s[0]) then
      var r := TrimStart(s[1..]);
      assert s[..|s| - |r|] == [s[0]] + s[1..][..|s| - 1 - |r|];
      r
    else s
  }

  /** Drops the trailing white space, symmetrically. */
  function TrimEnd(s: string): (r: string)
    ensures |r| <= |s| && r == s[..|r|]
    ensures AllWhitespace(s[|r|..])
    ensures r == [] || !IsJsWhitespace(r[|r| - 1])
  {
    if s != [] && IsJsWhitespace(s[|s| - 1]) then
      var r := TrimEnd(s[..|s| - 1]);
      assert s[|r|..] == s[..|s| - 1][|r|..] + [s[|s| - 1]];
      r
    else s
  }

  /** `String.prototype.trim`. */
  function Trim(s: string): string {
    TrimEnd(TrimStart(s))
  }

  /** A text that does not start with white space loses exactly the white
      space put in front of it. */
  lemma {:induction false} TrimStartPrefix(w: string, t: string)
    requires AllWhitespace(w)
    requires t == [] || !IsJsWhitespace(t[0])
    ensures TrimStart(w + t) == t
  {
    if w != [] {
      assert (w + t)[1..] == w[1..] + t;
      TrimStartPrefix(w[1..], t);
    }
  }

  /** A text that does not end with white space loses exactly the white space
      put after it. */
  lemma {:induction false} TrimEndSuffix(t: string, w: string)
    requires AllWhitespace(w)
    requires t == [] || !IsJsWhitespace(t[|t| - 1])
    ensures TrimEnd(t + w) == t
  {
    if w != [] {
      assert (t + w)[..|t + w| - 1] == t + w[..|w| - 1];
      TrimEndSuffix(t, w[..|w| - 1]);
    }
  }

  /** Trimming gives back exactly the text between the white space around it,
      when that text neither starts nor ends with white space. */
  lemma TrimEnclosed(w1: string, t: string, w2: string)
    requires AllWhitespace(w1) && AllWhitespace(w2)
    requires t != [] && !IsJsWhitespace(t[0]) && !IsJsWhitespace(t[|t| - 1])
    ensures Trim(w1 + t + w2) == t
  {
    assert w1 + t + w2 == w1 + (t + w2);
    TrimStartPrefix(w1, t + w2);
    TrimEndSuffix(t, w2);
  }

  /** Every text is its trimmed form with white space around it. */
  lemma TrimSplits(s: string)
    ensures exists i, j ::
              0 <= i <= j <= |s| && s[i..j] == Trim(s) && AllWhitespace(s[..i]) && AllWhitespace(s[j..])
  {
    var a := TrimStart(s);
    var i := |s| - |a|;
    var j := i + |Trim(s)|;
    assert a == s[i..];
    assert Trim(s) == a[..|Trim(s)|];
    assert s[i..j] == Trim(s);
    assert s[j..] == a[|Trim(s)|..];
  }

  /** Trimming twice changes nothing more. */
  lemma TrimIdempotent(s: string)
    ensures Trim(Trim(s)) == Trim(s)
  {
    var a := TrimStart(s);
    var t := TrimEnd(a);
    assert t == [] || !IsJsWhitespace(t[0]) by {
      if t != [] {
        assert t[0] == a[0];
      }
    }
    assert TrimStart(t) == t;
  }

  /** A text is its prefix, a middle part and its suffix put back together. */
  lemma Bracket(s: string, i: nat, j: nat)
    requires i <= j <= |s|
    ensures s == s[..i] + s[i..j] + s[j..]
  {
  }

  const User := "renato"
  const Password := "Marilia"
  const ErrorMessage := "Usuário ou senha incorretos."
  const Home := "home.html"

  /** The submit handler's test. */
  predicate Accepts(username: string, password: string) {
    Trim(username) == User && password == Password
  }

  /** A login is accepted exactly when the password is `Marilia` as typed and
      the user name is `renato` with nothing but white space around it. */
  lemma AcceptsIff(username: string, password: string)
    ensures Accepts(username, password) <==>
      password == Password &&
      exists i, j :: 0 <= i <= j <= |username| && username[i..j] == User &&
        AllWhitespace(username[..i]) && AllWhitespace(username[j..])
  {
    TrimSplits(username);
    if password == Password {
      if i, j :|
           0 <= i <= j <= |username| && username[i..j] == User &&
           AllWhitespace(username[..i]) && AllWhitespace(username[j..]) {
        Bracket(username, i, j);
        TrimEnclosed(username[..i], User, username[j..]);
      }
    }
  }

  /** White space around the user name is forgiven. */
  lemma UserPadded(w1: string, w2: string)
    requires AllWhitespace(w1) && AllWhitespace(w2)
    ensures Accepts(w1 + User + w2, Password)
  {
    TrimEnclosed(w1, User, w2);
  }

  /** The password is not trimmed: white space at either end rejects it. */
  lemma PasswordUntrimmed(username: string, password: string)
    requires password != [] && (IsJsWhitespace(password[0]) || IsJsWhitespace(password[|password| - 1]))
    ensures !Accepts(username, password)
  {
  }

  /** A user name padded with a space and a tab is accepted. */
  lemma PaddedExample()
    ensures Accepts(" renato\t", "Marilia")
  {
    assert " renato\t" == " " + User + "\t";
    UserPadded(" ", "\t");
  }

  /** The user name is compared case-sensitively. */
  lemma UserCaseExample()
    ensures !Accepts("Renato", "Marilia")
  {
    assert Trim("Renato") == "Renato" by {
      assert TrimStart("Renato") == "Renato";
    }
  }

  /** The password is compared case-sensitively. */
  lemma PasswordCaseExample()
    ensures !Accepts("renato", "marilia")
  {
  }

  /** The login form: its two fields, the error line and the page the
      browser is sent to, if any. */
  class LoginForm {
    var username: string
    var password: string
    var errorText: string
    var location: Option<string>

    /** The form as the user has filled it in, before any submission. */
    constructor (username: string, password: string)
      ensures this.username == username && this.password == password
      ensures errorText == "" && location == None
    {
      this.username := username;
      this.password := password;
      errorText := "";
      location := None;
    }

    /** Submitting: an accepted login sends the browser to `home.html` and
        touches nothing else; a refused one shows the error and clears the
        password, keeping the user name, so submitting again is refused too. */
    method Submit()
      modifies this
      ensures username == old(username)
      ensures Accepts(old(username), old(password)) ==>
        location == Some(Home) && password == old(password) && errorText == old(errorText)
      ensures !Accepts(old(username), old(password)) ==>
        location == old(location) && password == "" && errorText == ErrorMessage
      ensures !Accepts(old(username), old(password)) ==> !Accepts(username, password)
    {
      var user := Trim(username);
      var pass := password;
      if user == User && pass == Password {
        location := Some(Home);
      } else {
        errorText := ErrorMessage;
        password := "";
      }
    }
  }
}
