/**
 * Finding and removing users (main.py, lines 84-101, 343-355 and 662-671): the lookup key is
 * either a decimal user id or a fragment of the user's name.
 */
module UserLookup {
  import opened Records

  predicate IsDigit(c: char) {
    '0' <= c <= '9'
  }

  /** `str.isdecimal()`: at least one character, all of them decimal digits. */
  predicate IsDecimal(s: string) {
    |s| > 0 && forall i :: 0 <= i < |s| ==> IsDigit(s[i])
  }

  /** The number a string of decimal digits denotes (as the database compares `user.id == "007"`). */
  function DecimalValue(s: string): nat
    requires forall i :: 0 <= i < |s| ==> IsDigit(s[i])
  {
    if s == [] then 0
    else
      assert IsDigit(s[|s| - 1]);
      DecimalValue(s[..|s| - 1]) * 10 + (s[|s| - 1] as int - '0' as int)
  }

  /** `str(n)` for a non-negative id. */
  function DecimalText(n: nat): (s: string)
    ensures IsDecimal(s)
  {
    if n < 10 then [('0' as int + n) as char]
    else DecimalText(n / 10) + [('0' as int + n % 10) as char]
  }

  /** Reading back the text of an id gives the id. */
  lemma {:induction false} DecimalRoundTrip(n: nat)
    ensures DecimalValue(DecimalText(n)) == n
  {
    var s := DecimalText(n);
    if n >= 10 {
      DecimalRoundTrip(n / 10);
      assert s[..|s| - 1] == DecimalText(n / 10);
    }
  }

  /** ASCII upper-case letters to lower case; `ilike` compares without case. */
  function Lower(c: char): (r: char)
    ensures 'A' <= c <= 'Z' ==> 'a' <= r <= 'z' && r as int - 'a' as int == c as int - 'A' as int
    ensures !('A' <= c <= 'Z') ==> r == c
  {
    if 'A' <= c <= 'Z' then (c as int + 32) as char else c
  }

  function LowerAll(s: string): (r: string)
    ensures |r| == |s|
  {
    seq(|s|, i requires 0 <= i < |s| => Lower(s[i]))
  }

  predicate IsPrefix(p: string, s: string) {
    |p| <= |s| && s[..|p|] == p
  }

  /** `p` occurs somewhere in `s`: the `%p%` pattern. */
  predicate IsInfix(p: string, s: string)
    decreases |s|
  {
    IsPrefix(p, s) || (s != [] && IsInfix(p, s[1..]))
  }

  /** The filter find_user applies: an id when the key is decimal, otherwise a case-blind name fragment. */
  predicate KeyMatches(u: User, key: string) {
    if IsDecimal(key) then u.id == DecimalValue(key)
    else IsInfix(LowerAll(key), LowerAll(u.name))
  }

  /** A decimal key with leading zeros names the same id: `"007"` finds user 7. */
  lemma {:induction false} LeadingZerosIgnored(s: string)
    requires forall i :: 0 <= i < |s| ==> IsDigit(s[i])
    ensures DecimalValue(['0'] + s) == DecimalValue(s)
  {
    if s != [] {
      var front := s[..|s| - 1];
      LeadingZerosIgnored(front);
      assert (['0'] + s)[..|s|] == ['0'] + front;
    }
  }

  /** The filter does not see the key's case: a key and its lower-case form match the same users. */
  lemma KeyMatchesIgnoresKeyCase(u: User, key: string)
    ensures KeyMatches(u, LowerAll(key)) <==> KeyMatches(u, key)
  {
    var low := LowerAll(key);
    if IsDecimal(key) {
      assert low == key;
    } else {
      assert !IsDecimal(low) by {
        if |key| > 0 {
          var i :| 0 <= i < |key| && !IsDigit(key[i]);
          assert !IsDigit(low[i]);
        }
      }
      assert LowerAll(low) == low;
    }
  }

  /** find_user: the first user the filter matches. */
  function FindUser(us: seq<User>, key: string): (r: Option<nat>)
    ensures r.Some? ==> r.value < |us| && KeyMatches(us[r.value], key)
    ensures r.Some? ==> forall j :: 0 <= j < r.value ==> !KeyMatches(us[j], key)
    ensures r.None? ==> forall j :: 0 <= j < |us| ==> !KeyMatches(us[j], key)
  {
    if us == [] then None
    else if KeyMatches(us[0], key) then Some(0)
    else match FindUser(us[1..], key)
      case None => None
      case Some(k) => Some(k + 1)
  }

  /** Looking a user up by the text of its id finds that user when ids are unique. */
  lemma FindUserById(us: seq<User>, k: nat)
    requires k < |us| && us[k].id >= 0
    requires UserIdsAscending(us)
    ensures FindUser(us, DecimalText(us[k].id)) == Some(k)
  {
    DecimalRoundTrip(us[k].id);
    var r := FindUser(us, DecimalText(us[k].id));
    assert KeyMatches(us[k], DecimalText(us[k].id));
  }

  /** An empty key is not decimal and is a fragment of every name: it finds the first user. */
  lemma EmptyKeyFindsFirstUser(us: seq<User>)
    requires us != []
    ensures FindUser(us, "") == Some(0)
  {
    assert IsPrefix(LowerAll(""), LowerAll(us[0].name));
  }

  /** The id the database gives the next user: one above the largest id. */
  function NextUserId(us: seq<User>): (id: int)
    ensures UserIdsAscending(us) ==> forall j :: 0 <= j < |us| ==> us[j].id < id
  {
    if us == [] then 1 else us[|us| - 1].id + 1
  }

  /** `user.query.filter(user.id == uid).delete()`: every user with that id removed, the others kept in order. */
  function WithoutUser(us: seq<User>, uid: int): (r: seq<User>)
    ensures forall u :: u in r <==> u in us && u.id != uid
    ensures UserIdsAscending(us) ==> UserIdsAscending(r)
  {
    if us == [] then []
    else
      var front := us[..|us| - 1];
      var last := us[|us| - 1];
      var prev := WithoutUser(front, uid);
      assert forall u :: u in us <==> u in front || u == last;
      assert UserIdsAscending(us) ==> UserIdsAscending(front);
      assert UserIdsAscending(us) ==> forall j :: 0 <= j < |prev| ==> prev[j].id < last.id;
      if last.id == uid then prev else prev + [last]
  }
}
