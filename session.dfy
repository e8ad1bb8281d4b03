/**
 * The cookie-based session of the service: `getSession` reads the user's
 * id, role and name from the request's cookies, and the POST branch of
 * `Login` sets those cookies. Go's `strconv.Atoi` and `strconv.Itoa`, which
 * the two use to carry the id as text, are modelled here as well.
 */
module Session {
  import opened Wrappers

  /** Cookie names. */
  const UidCookie: string := "user_id"
  const RoleCookie: string := "role"
  const NameCookie: string := "name"

  /** One cookie the browser sent (already parsed from the Cookie header). */
  datatype Cookie = Cookie(name: string, value: string)

  /** What `getSession` returns: the user's id, role and display name. */
  datatype Session = Session(uid: int, role: string, name: string)

  /** The session of a visitor who is not logged in. */
  const Anonymous: Session := Session(0, "", "")

  /**
   * The value of the first cookie called `name`, as `Request.Cookie`
   * returns it, or `None` when there is no such cookie.
   */
  function CookieValue(jar: seq<Cookie>, name: string): (r: Option<string>)
    ensures r.None? <==> forall i :: 0 <= i < |jar| ==> jar[i].name != name
    ensures r.Some? ==>
      exists i :: 0 <= i < |jar| && jar[i] == Cookie(name, r.value) &&
        forall j :: 0 <= j < i ==> jar[j].name != name
  {
    if jar == [] then None
    else if jar[0].name == name then Some(jar[0].value)
    else
      var r := CookieValue(jar[1..], name);
      assert r.Some? ==> (exists i :: 1 <= i < |jar| && jar[i] == Cookie(name, r.value) &&
                                 forall j :: 0 <= j < i ==> jar[j].name != name) by {
        if r.Some? {
          var k :| 0 <= k < |jar[1..]| && jar[1..][k] == Cookie(name, r.value) &&
            forall j :: 0 <= j < k ==> jar[1..][j].name != name;
          assert jar[k + 1] == Cookie(name, r.value);
          forall j | 0 <= j < k + 1 ensures jar[j].name != name {
            if j > 0 { assert jar[j] == jar[1..][j - 1]; }
          }
        }
      }
      r
  }

  /** Whether the browser sent a cookie called `name`. */
  predicate Has(jar: seq<Cookie>, name: string) {
    exists i :: 0 <= i < |jar| && jar[i].name == name
  }

  /** `i` is the position of the first cookie called `name`. */
  predicate FirstNamed(jar: seq<Cookie>, name: string, i: int) {
    && 0 <= i < |jar| && jar[i].name == name
    && forall j :: 0 <= j < i ==> jar[j].name != name
  }

  /** The value looked up is that of the first cookie with the name. */
  lemma FirstNamedValue(jar: seq<Cookie>, name: string, i: int)
    requires FirstNamed(jar, name, i)
    ensures CookieValue(jar, name) == Some(jar[i].value)
  {
    var r := CookieValue(jar, name);
    assert r.Some?;
    var k :| 0 <= k < |jar| && jar[k] == Cookie(name, r.value) && forall j :: 0 <= j < k ==> jar[j].name != name;
    assert k == i;
  }

  // ---------------------------------------------------------------------
  // strconv.Atoi and strconv.Itoa on 64-bit Go
  // ---------------------------------------------------------------------

  /** The range of Go's `int` on a 64-bit platform. */
  const MinInt: int := -0x8000_0000_0000_0000
  const MaxInt: int := 0x7FFF_FFFF_FFFF_FFFF

  predicate IsDigit(c: char) {
    '0' <= c <= '9'
  }

  predicate AllDigits(s: string) {
    forall i :: 0 <= i < |s| ==> IsDigit(s[i])
  }

  /** The value of a run of decimal digits, most significant first. */
  function DigitsValue(s: string): nat
    requires AllDigits(s)
  {
    if s == [] then 0
    else DigitsValue(s[..|s| - 1]) * 10 + (s[|s| - 1] as int - '0' as int)
  }

  /** The text after an optional leading `+` or `-`, and whether that sign was `-`. */
  function Unsigned(s: string): (r: (bool, string))
    ensures |r.1| == |s| || |r.1| == |s| - 1
  {
    var negative := |s| > 0 && s[0] == '-';
    var rest := if |s| > 0 && (s[0] == '-' || s[0] == '+') then s[1..] else s;
    (negative, rest)
  }

  /**
   * The sign and digits of a decimal numeral: an optional `+` or `-`
   * followed by at least one ASCII digit and nothing else. `None` for any
   * other text (empty, a bare sign, a letter, a space, an underscore).
   */
  function Numeral(s: string): (r: Option<(bool, string)>)
    ensures r.Some? ==> r.value.1 != "" && AllDigits(r.value.1)
  {
    var (negative, digits) := Unsigned(s);
    if digits != "" && AllDigits(digits) then Some((negative, digits)) else None
  }

  /** The longest run of ASCII digits at the start of `s`. */
  function LeadingDigits(s: string): (p: string)
    ensures p <= s && AllDigits(p)
    ensures |p| < |s| ==> !IsDigit(s[|p|])
  {
    if s != [] && IsDigit(s[0]) then [s[0]] + LeadingDigits(s[1..]) else []
  }

  /** The largest value Go's unsigned 64-bit parser accepts. */
  const MaxUint: int := 0xFFFF_FFFF_FFFF_FFFF

  /**
   * Go's parser reads the digits after the sign from left to right and
   * stops with a range error as soon as the value read exceeds 2^64 - 1,
   * before it looks at anything that follows. Since the value of a digit
   * run only grows as it is read, that happens exactly when the whole
   * leading run exceeds 2^64 - 1.
   */
  predicate Overflows(s: string) {
    DigitsValue(LeadingDigits(Unsigned(s).1)) > MaxUint
  }

  /** Out-of-range values saturate at the bounds of `int`. */
  function Clamp(n: int): (r: int)
    ensures MinInt <= r <= MaxInt
    ensures MinInt <= n <= MaxInt ==> r == n
  {
    if n < MinInt then MinInt else if n > MaxInt then MaxInt else n
  }

  /**
   * `strconv.Atoi` with its error discarded, as every caller here does:
   * the numeral's value, saturated to the `int` range on overflow; a digit
   * run that overflows saturates whatever follows it; 0 for any other text.
   * (For text shorter than 19 bytes Go takes a fast path, which agrees with
   * this because such text cannot overflow.)
   */
  function Atoi(s: string): (n: int)
    ensures MinInt <= n <= MaxInt
    ensures Numeral(s).None? && !Overflows(s) ==> n == 0
    ensures Overflows(s) ==> n == (if Unsigned(s).0 then MinInt else MaxInt)
  {
    match Numeral(s)
    case Some((negative, digits)) =>
      LeadingDigitsOfDigits(digits);
      var magnitude: int := DigitsValue(digits);
      Clamp(if negative then -magnitude else magnitude)
    case None =>
      var (negative, rest) := Unsigned(s);
      var magnitude: int := DigitsValue(LeadingDigits(rest));
      if magnitude > MaxUint then Clamp(if negative then -magnitude else magnitude) else 0
  }

  /** A digit run followed by more digits is worth at least as much as the run alone. */
  lemma {:induction false} DigitsValueGrows(d: string, q: string)
    requires AllDigits(d + q)
    ensures AllDigits(d) && DigitsValue(d + q) >= DigitsValue(d)
  {
    assert forall i :: 0 <= i < |d| ==> (d + q)[i] == d[i];
    if q != [] {
      var q' := q[..|q| - 1];
      assert (d + q)[..|d + q| - 1] == d + q';
      DigitsValueGrows(d, q');
    } else {
      assert d + q == d;
    }
  }

  /** The leading digit run of a digit run followed by anything starts with that run. */
  lemma {:induction false} LeadingDigitsAppend(d: string, t: string)
    requires AllDigits(d)
    ensures LeadingDigits(d + t) == d + LeadingDigits(t)
  {
    if d != [] {
      assert (d + t)[1..] == d[1..] + t;
      LeadingDigitsAppend(d[1..], t);
    } else {
      assert d + t == t;
    }
  }

  /** A run made of digits only is its own leading run. */
  lemma {:induction false} LeadingDigitsOfDigits(d: string)
    requires AllDigits(d)
    ensures LeadingDigits(d) == d
  {
    if d != [] {
      LeadingDigitsOfDigits(d[1..]);
    }
  }

  /** The leading run of digits that overflow, followed by anything, overflows too. */
  lemma LeadingRunOverflows(d: string, t: string)
    requires AllDigits(d) && DigitsValue(d) > MaxUint
    ensures DigitsValue(LeadingDigits(d + t)) > MaxUint
  {
    LeadingDigitsAppend(d, t);
    DigitsValueGrows(d, LeadingDigits(t));
  }

  /**
   * Digits worth more than 2^64 - 1 followed by any text parse as the
   * largest `int`.
   */
  lemma OverflowThenAnything(d: string, t: string)
    requires AllDigits(d) && DigitsValue(d) > MaxUint
    ensures Atoi(d + t) == MaxInt
  {
    LeadingRunOverflows(d, t);
    assert d != [] && (d + t)[0] == d[0];
    assert Unsigned(d + t) == (false, d + t);
    assert Overflows(d + t);
  }

  /** With a `-` in front, they parse as the smallest `int`. */
  lemma NegativeOverflowThenAnything(d: string, t: string)
    requires AllDigits(d) && DigitsValue(d) > MaxUint
    ensures Atoi("-" + d + t) == MinInt
  {
    LeadingRunOverflows(d, t);
    var u := d + t;
    var s := "-" + u;
    assert "-" + d + t == s;
    assert s[1..] == u;
    assert Unsigned(s) == (true, u);
    assert Overflows(s);
  }

  function DigitChar(d: nat): (c: char)
    requires d < 10
    ensures IsDigit(c)
  {
    ('0' as int + d) as char
  }

  /** The decimal digits of `n`, without leading zeros. */
  function Digits(n: nat): (s: string)
    ensures s != "" && AllDigits(s)
  {
    if n < 10 then [DigitChar(n)] else Digits(n / 10) + [DigitChar(n % 10)]
  }

  /** `strconv.Itoa`: the decimal text of `n`, with a `-` when it is negative. */
  function Itoa(n: int): string {
    if n < 0 then "-" + Digits(-n) else Digits(n)
  }

  lemma {:induction false} DigitsRoundTrip(n: nat)
    ensures DigitsValue(Digits(n)) == n
  {
    if n >= 10 {
      var s := Digits(n);
      assert s[..|s| - 1] == Digits(n / 10);
      DigitsRoundTrip(n / 10);
    }
  }

  /** Parsing the text `Itoa` prints gives back the number. */
  lemma AtoiItoa(n: int)
    requires MinInt <= n <= MaxInt
    ensures Atoi(Itoa(n)) == n
  {
    var d := Digits(if n < 0 then -n else n);
    DigitsRoundTrip(if n < 0 then -n else n);
    if n < 0 {
      var s := "-" + d;
      assert s[1..] == d;
      assert Unsigned(s) == (true, d);
      assert Numeral(s) == Some((true, d));
    } else {
      assert Unsigned(d) == (false, d);
      assert Numeral(d) == Some((false, d));
    }
  }

  // ---------------------------------------------------------------------
  // getSession
  // ---------------------------------------------------------------------

  /**
   * `getSession`: no `user_id` cookie means the anonymous session; else the
   * id is that cookie parsed by `Atoi`, and a missing `role` or `name`
   * cookie reads as the empty text.
   */
  function GetSession(jar: seq<Cookie>): (s: Session)
    ensures !Has(jar, UidCookie) ==> s == Anonymous
    ensures (CookieValue(jar, UidCookie).Some? && Numeral(CookieValue(jar, UidCookie).value).None?
             && !Overflows(CookieValue(jar, UidCookie).value)) ==> s.uid == 0
    ensures Has(jar, UidCookie) && !Has(jar, RoleCookie) ==> s.role == ""
    ensures Has(jar, UidCookie) && !Has(jar, NameCookie) ==> s.name == ""
  {
    match CookieValue(jar, UidCookie)
    case None => Anonymous
    case Some(uidText) =>
      var role := match CookieValue(jar, RoleCookie) case Some(v) => v case None => "";
      var name := match CookieValue(jar, NameCookie) case Some(v) => v case None => "";
      Session(Atoi(uidText), role, name)
  }

  /**
   * When the cookies are there, `getSession` reads the first `user_id`
   * cookie through `Atoi`, and takes the first `role` and `name` cookies
   * as they are.
   */
  lemma GetSessionReadsFirstCookies(jar: seq<Cookie>, u: int, r: int, m: int)
    requires FirstNamed(jar, UidCookie, u)
    ensures GetSession(jar).uid == Atoi(jar[u].value)
    ensures FirstNamed(jar, RoleCookie, r) ==> GetSession(jar).role == jar[r].value
    ensures FirstNamed(jar, NameCookie, m) ==> GetSession(jar).name == jar[m].value
  {
    FirstNamedValue(jar, UidCookie, u);
    if FirstNamed(jar, RoleCookie, r) {
      FirstNamedValue(jar, RoleCookie, r);
    }
    if FirstNamed(jar, NameCookie, m) {
      FirstNamedValue(jar, NameCookie, m);
    }
  }

  // ---------------------------------------------------------------------
  // Login (POST)
  // ---------------------------------------------------------------------

  /**
   * A character net/http keeps in a cookie value: printable ASCII other
   * than `"`, `;` and `\`.
   */
  predicate CookieValueChar(c: char) {
    ' ' <= c <= '~' && c != '"' && c != ';' && c != '\\'
  }

  predicate CookieText(v: string) {
    forall i :: 0 <= i < |v| ==> CookieValueChar(v[i])
  }

  /**
   * The value `http.SetCookie` writes into the header: every other
   * character is dropped (a non-ASCII character is UTF-8 bytes at or above
   * 0x80, all of which are dropped). A value with a space or a comma is
   * sent quoted and unquoted again when read, so the browser returns
   * exactly this text.
   */
  function SanitizeValue(v: string): (r: string)
    ensures CookieText(r) && |r| <= |v|
    ensures CookieText(v) ==> r == v
  {
    if v == [] then []
    else
      var rest := SanitizeValue(v[1..]);
      assert CookieText(v) ==> CookieText(v[1..]) by {
        if CookieText(v) {
          forall i | 0 <= i < |v[1..]| ensures CookieValueChar(v[1..][i]) {
            assert v[1..][i] == v[i + 1];
          }
        }
      }
      if CookieValueChar(v[0]) then
        assert CookieText([v[0]] + rest) by {
          forall i | 0 <= i < |[v[0]] + rest| ensures CookieValueChar(([v[0]] + rest)[i]) {
            if i > 0 { assert ([v[0]] + rest)[i] == rest[i - 1]; }
          }
        }
        assert CookieText(v) ==> [v[0]] + rest == v by {
          if CookieText(v) { assert v == [v[0]] + v[1..]; }
        }
        [v[0]] + rest
      else
        rest
  }

  /**
   * The sanitiser works character by character: the value of a
   * concatenation is the concatenation of the values, so the kept
   * characters stay in their order.
   */
  lemma {:induction false} SanitizeValueAppend(a: string, b: string)
    ensures SanitizeValue(a + b) == SanitizeValue(a) + SanitizeValue(b)
  {
    if a == [] {
      assert a + b == b;
    } else {
      assert (a + b)[0] == a[0] && (a + b)[1..] == a[1..] + b;
      SanitizeValueAppend(a[1..], b);
    }
  }

  /** One character is kept exactly when it is a cookie character. */
  lemma SanitizeValueChar(c: char)
    ensures SanitizeValue([c]) == if CookieValueChar(c) then [c] else []
  {
    assert [c][1..] == [];
  }

  /**
   * Every cookie character of the value is kept as often as it occurs,
   * and every other character is dropped.
   */
  lemma {:induction false} SanitizeValueCounts(v: string)
    ensures forall c :: multiset(SanitizeValue(v))[c] == if CookieValueChar(c) then multiset(v)[c] else 0
  {
    if v != [] {
      SanitizeValueCounts(v[1..]);
      assert v == [v[0]] + v[1..];
      assert multiset(v) == multiset{v[0]} + multiset(v[1..]);
      if CookieValueChar(v[0]) {
        assert SanitizeValue(v) == [v[0]] + SanitizeValue(v[1..]);
        assert multiset(SanitizeValue(v)) == multiset{v[0]} + multiset(SanitizeValue(v[1..]));
      }
    }
  }

  /** A semicolon inside a name is dropped and the rest kept in order. */
  lemma SanitizeDropsSemicolon()
    ensures SanitizeValue("O;lga") == "Olga"
  {
    SanitizeValueAppend("O", ";lga");
    SanitizeValueAppend(";", "lga");
    assert "O;lga" == "O" + ";lga" && ";lga" == ";" + "lga";
    assert CookieText("lga") && CookieText("O");
  }

  /** The cookies as the browser sends them back after `http.SetCookie` wrote them. */
  function Transmit(cookies: seq<Cookie>): (jar: seq<Cookie>)
    ensures |jar| == |cookies|
    ensures forall i :: 0 <= i < |jar| ==> jar[i] == Cookie(cookies[i].name, SanitizeValue(cookies[i].value))
    ensures forall i :: 0 <= i < |jar| ==> jar[i].name == cookies[i].name && CookieText(jar[i].value)
  {
    seq(|cookies|, i requires 0 <= i < |cookies| => Cookie(cookies[i].name, SanitizeValue(cookies[i].value)))
  }

  /** The decimal text `Itoa` prints passes the cookie sanitiser unchanged. */
  lemma ItoaIsCookieText(n: int)
    ensures CookieText(Itoa(n))
  {
    var d := Digits(if n < 0 then -n else n);
    assert forall i :: 0 <= i < |d| ==> CookieValueChar(d[i]);
    if n < 0 {
      forall i | 0 <= i < |"-" + d| ensures CookieValueChar(("-" + d)[i]) {
        if i > 0 { assert ("-" + d)[i] == d[i - 1]; }
      }
    }
  }

  /** The three form fields the login form posts. */
  datatype LoginForm = LoginForm(uid: string, role: string, name: string)

  /** A login either rejects the form or sets the session cookies. */
  datatype LoginResult = LoginBadInput | SignedIn(cookies: seq<Cookie>)

  /**
   * The POST branch of `Login`: an empty field is rejected with nothing
   * set; otherwise the id is normalised through `Atoi`/`Itoa` and the three
   * session cookies are set.
   */
  function Login(f: LoginForm): (r: LoginResult)
    ensures r.LoginBadInput? <==> f.uid == "" || f.role == "" || f.name == ""
  {
    if f.uid == "" || f.role == "" || f.name == "" then LoginBadInput
    else SignedIn([Cookie(UidCookie, Itoa(Atoi(f.uid))), Cookie(RoleCookie, f.role), Cookie(NameCookie, f.name)])
  }

  /**
   * The cookies a login sets, as the browser sends them back, read through
   * `getSession` as the submitted user, with role and name passed through
   * the cookie sanitiser; a role and name made of cookie characters read
   * back exactly.
   */
  lemma LoginThenSession(f: LoginForm)
    requires Login(f).SignedIn?
    ensures GetSession(Transmit(Login(f).cookies)) == Session(Atoi(f.uid), SanitizeValue(f.role), SanitizeValue(f.name))
    ensures CookieText(f.role) && CookieText(f.name) ==>
      GetSession(Transmit(Login(f).cookies)) == Session(Atoi(f.uid), f.role, f.name)
  {
    var uidText := Itoa(Atoi(f.uid));
    ItoaIsCookieText(Atoi(f.uid));
    var jar := Transmit(Login(f).cookies);
    assert jar == [Cookie(UidCookie, uidText), Cookie(RoleCookie, SanitizeValue(f.role)), Cookie(NameCookie, SanitizeValue(f.name))];
    SessionCookiesRead(uidText, SanitizeValue(f.role), SanitizeValue(f.name));
    AtoiItoa(Atoi(f.uid));
  }

  lemma SessionCookiesRead(uidText: string, role: string, name: string)
    ensures var jar := [Cookie(UidCookie, uidText), Cookie(RoleCookie, role), Cookie(NameCookie, name)];
      && CookieValue(jar, UidCookie) == Some(uidText)
      && CookieValue(jar, RoleCookie) == Some(role)
      && CookieValue(jar, NameCookie) == Some(name)
  {
    var jar := [Cookie(UidCookie, uidText), Cookie(RoleCookie, role), Cookie(NameCookie, name)];
    assert UidCookie != RoleCookie && UidCookie != NameCookie && RoleCookie[0] != NameCookie[0];
    assert jar[1..] == [Cookie(RoleCookie, role), Cookie(NameCookie, name)];
    assert jar[1..][1..] == [Cookie(NameCookie, name)];
    assert CookieValue(jar[1..][1..], NameCookie) == Some(name);
    assert CookieValue(jar[1..], NameCookie) == Some(name);
  }

}
