// The decoder of application/x-www-form-urlencoded bodies in src/http/request.cpp,
// and an encoder of forms.  The decoder undoes the encoder exactly where no character
// has to be escaped.
module Forms {
  import opened Prelude

  type Pairs = seq<(string, string)>

  // ---------- Escapes ----------

  // The C++ type char, taken as signed.
  function Signed(c: char): (r: int)
    ensures -128 <= r < 128
  {
    (c as int + 128) % 256 - 128
  }

  // Source: convertHex, which leaves decimal digits at their character codes.
  function ConvertHex(c: char): int {
    if 'A' <= c <= 'F' then c as int - 'A' as int + 10
    else if 'a' <= c <= 'f' then c as int - 'a' as int + 10
    else Signed(c)
  }

  // Division and remainder of C++, which round towards zero.
  function Quotient(x: int, d: nat): int
    requires d > 0
  {
    if x >= 0 then x / d else -((-x) / d)
  }

  function Remainder(x: int, d: nat): int
    requires d > 0
  {
    x - d * Quotient(x, d)
  }

  function Narrow(x: int): char {
    (x % 256) as char
  }

  // The two characters written over those that follow a '%'.
  function Unescaped(a: char, b: char): (s: string)
    ensures |s| == 2
  {
    var num := ConvertHex(a) * 16 + ConvertHex(b);
    [Narrow(Quotient(num, 10) + '0' as int), Narrow(Remainder(num, 10) + '0' as int)]
  }

  // ---------- What the decoder computes ----------

  // The in-place rewriting of what is still to be scanned.  A '%' in one of the last two
  // places makes the source write past the end of the body, which is undefined.
  function Restore(rest: string): (r: Option<string>)
    ensures r.Some? ==> |r.value| == |rest|
  {
    if rest == "" then Some("")
    else if rest[0] == '%' then
      if |rest| < 3 then None
      else
        var r := Restore(rest[3..]);
        if r.None? then None else Some(['%'] + Unescaped(rest[1], rest[2]) + r.value)
    else
      var r := Restore(rest[1..]);
      if r.None? then None else Some([if rest[0] == '+' then ' ' else rest[0]] + r.value)
  }

  // `word` is what has been read since the last separator, as rewritten.
  function Scan(word: string, rest: string, key: string, post: map<string, string>): Option<map<string, string>>
    decreases |rest|
  {
    if rest == "" then Some(if key !in post && word != "" then post[key := word] else post)
    else if rest[0] == '%' then
      if |rest| < 3 then None else Scan(word + ['%'] + Unescaped(rest[1], rest[2]), rest[3..], key, post)
    else if rest[0] == '=' then Scan("", rest[1..], word, post)
    else if rest[0] == '&' then Scan("", rest[1..], key, post[key := word])
    else Scan(word + [if rest[0] == '+' then ' ' else rest[0]], rest[1..], key, post)
  }

  function Decode(body: string): Option<map<string, string>> {
    Scan("", body, "", map[])
  }

  // ---------- Where escapes begin ----------

  // An escape begins at a '%' that is not one of the two characters of an escape before it.
  predicate Begins(s: string, i: int)
    decreases i
  {
    0 <= i < |s| && s[i] == '%' && !Begins(s, i - 1) && !Begins(s, i - 2)
  }

  // A character that is in no escape.
  predicate Free(s: string, i: int) {
    !Begins(s, i) && !Begins(s, i - 1) && !Begins(s, i - 2)
  }

  // An escape reaches past the end of the text.
  predicate RunsOver(s: string) {
    Begins(s, |s| - 1) || Begins(s, |s| - 2)
  }

  // Taking off a character that is not '%', or a whole escape, moves the others down.
  lemma {:induction false} BeginsAfterOne(s: string, i: nat)
    requires s != "" && s[0] != '%' && 1 <= i
    ensures Begins(s, i) <==> Begins(s[1..], i - 1)
    decreases i
  {
    if i >= 2 { BeginsAfterOne(s, i - 1); }
    if i >= 3 { BeginsAfterOne(s, i - 2); }
  }

  lemma {:induction false} BeginsAfterThree(s: string, i: nat)
    requires |s| >= 3 && s[0] == '%' && 3 <= i
    ensures Begins(s, i) <==> Begins(s[3..], i - 3)
    decreases i
  {
    StartsEscape(s);
    if i >= 4 { BeginsAfterThree(s, i - 1); }
    if i >= 5 { BeginsAfterThree(s, i - 2); }
  }

  lemma StartsEscape(s: string)
    requires s != "" && s[0] == '%'
    ensures Begins(s, 0) && !Begins(s, 1) && !Begins(s, 2)
  {
    assert !Begins(s, -1) && !Begins(s, -2);
    assert Begins(s, 0);
  }

  // The rewriting is undefined exactly where an escape reaches past the end.
  lemma {:induction false} RestoreExact(s: string)
    ensures Restore(s).None? <==> RunsOver(s)
    decreases |s|
  {
    if s == "" {
    } else if s[0] == '%' {
      StartsEscape(s);
      if |s| >= 3 {
        RestoreExact(s[3..]);
        if |s| >= 4 { BeginsAfterThree(s, |s| - 1); }
        if |s| >= 5 { BeginsAfterThree(s, |s| - 2); }
      }
    } else {
      RestoreExact(s[1..]);
      if |s| >= 2 { BeginsAfterOne(s, |s| - 1); }
      if |s| >= 3 { BeginsAfterOne(s, |s| - 2); }
    }
  }

  // The scan is defined exactly where the rewriting is.
  lemma {:induction false} DefinedTogether(word: string, rest: string, key: string, post: map<string, string>)
    ensures Scan(word, rest, key, post).Some? <==> Restore(rest).Some?
    decreases |rest|
  {
    if rest == "" {
    } else if rest[0] == '%' {
      if |rest| >= 3 { DefinedTogether(word + ['%'] + Unescaped(rest[1], rest[2]), rest[3..], key, post); }
    } else if rest[0] == '=' {
      DefinedTogether("", rest[1..], word, post);
    } else if rest[0] == '&' {
      DefinedTogether("", rest[1..], key, post[key := word]);
    } else {
      DefinedTogether(word + [if rest[0] == '+' then ' ' else rest[0]], rest[1..], key, post);
    }
  }

  lemma DefinedExact(word: string, rest: string, key: string, post: map<string, string>)
    ensures Scan(word, rest, key, post).None? <==> RunsOver(rest)
    ensures Restore(rest).None? <==> RunsOver(rest)
  {
    RestoreExact(rest);
    DefinedTogether(word, rest, key, post);
  }

  // One '%' at the end is enough, but three of them are one escape.
  lemma PercentAtTheEnd()
    ensures RunsOver("a=1%") && RunsOver("a=%4") && !RunsOver("%%%") && RunsOver("%%%%")
  {
    StartsEscape("%%%");
    StartsEscape("%%%%");
    BeginsAfterThree("%%%%", 3);
    StartsEscape("%%%%"[3..]);
    assert !Begins("a=1%", 0) && !Begins("a=1%", 1) && !Begins("a=1%", 2);
    assert !Begins("a=%4", 0) && !Begins("a=%4", 1);
  }

  // What the rewriting `r` of s has at i.
  predicate RewrittenAt(s: string, r: string, i: int)
    requires 0 <= i < |s| == |r|
  {
    && (Free(s, i) ==> r[i] == if s[i] == '+' then ' ' else s[i])
    && (Begins(s, i) ==> i + 2 < |s| && r[i] == '%' && r[i + 1..i + 3] == Unescaped(s[i + 1], s[i + 2]))
  }

  lemma RewrittenAfterOne(s: string, r: string, i: nat)
    requires 1 <= i < |s| == |r| && s[0] != '%' && RewrittenAt(s[1..], r[1..], i - 1)
    ensures RewrittenAt(s, r, i)
  {
    FreeAfterOne(s, i);
    BeginsAfterOne(s, i);
    assert i + 2 < |s| ==> r[1..][i..i + 2] == r[i + 1..i + 3];
  }

  lemma RewrittenAfterThree(s: string, r: string, i: nat)
    requires 3 <= i < |s| == |r| && s[0] == '%' && RewrittenAt(s[3..], r[3..], i - 3)
    ensures RewrittenAt(s, r, i)
  {
    FreeAfterThree(s, i);
    BeginsAfterThree(s, i);
    assert i + 2 < |s| ==> r[3..][i - 2..i] == r[i + 1..i + 3];
  }

  // The rewriting, character by character: outside escapes a '+' becomes a space, and of
  // an escape the '%' stays.
  lemma {:induction false} RestoreAt(s: string, i: nat)
    requires Restore(s).Some? && i < |s|
    ensures RewrittenAt(s, Restore(s).value, i)
    decreases |s|
  {
    var r := Restore(s).value;
    if s[0] == '%' {
      assert r[3..] == Restore(s[3..]).value;
      if i >= 3 {
        RestoreAt(s[3..], i - 3);
        RewrittenAfterThree(s, r, i);
      } else {
        StartsEscape(s);
        assert r[1..3] == Unescaped(s[1], s[2]);
      }
    } else {
      assert r[1..] == Restore(s[1..]).value;
      if i >= 1 {
        RestoreAt(s[1..], i - 1);
        RewrittenAfterOne(s, r, i);
      }
    }
  }

  lemma UnescapedIs(a: char, b: char, num: nat)
    requires num == ConvertHex(a) * 16 + ConvertHex(b) && num < 2000
    ensures Unescaped(a, b) == [(48 + num / 10) as char, (48 + num % 10) as char]
  {
    assert Quotient(num, 10) == num / 10 && Remainder(num, 10) == num % 10;
  }

  // The two characters behind the '%': of "AB" they become "A1", the digits of 171 in two;
  // decimal digits count as their character codes.
  lemma EscapeSamples()
    ensures Unescaped('A', 'B') == [65 as char, 49 as char] && Unescaped('f', 'F') == [73 as char, 53 as char]
    ensures Unescaped('2', '0') == [132 as char, 56 as char] && Unescaped('3', 'D') == [130 as char, 57 as char]
  {
    UnescapedIs('A', 'B', 171);
    UnescapedIs('f', 'F', 255);
    UnescapedIs('2', '0', 848);
    UnescapedIs('3', 'D', 829);
  }

  // ---------- Forms that leave nothing behind ----------

  // Character by character: nothing is rewritten, and nothing is stored.
  predicate StaysAt(s: string, i: int)
    requires 0 <= i < |s|
  {
    if Begins(s, i) then i + 2 < |s| && Unescaped(s[i + 1], s[i + 2]) == s[i + 1..i + 3]
    else Free(s, i) ==> s[i] != '+' && s[i] != '&'
  }

  ghost predicate AllStay(s: string) {
    forall i :: 0 <= i < |s| ==> StaysAt(s, i)
  }

  predicate EndsEmpty(s: string) {
    s == "" || (Free(s, |s| - 1) && s[|s| - 1] == '=')
  }

  // No '+' and no '&' outside escapes, every escape reads as itself, and nothing stands
  // behind the last '='.
  ghost predicate Stays(s: string) {
    AllStay(s) && EndsEmpty(s)
  }

  lemma FreeAfterOne(s: string, i: nat)
    requires s != "" && s[0] != '%' && 1 <= i < |s|
    ensures Free(s, i) <==> Free(s[1..], i - 1)
    ensures StaysAt(s, i) <==> StaysAt(s[1..], i - 1)
  {
    BeginsAfterOne(s, i);
    if i >= 2 { BeginsAfterOne(s, i - 1); }
    if i >= 3 { BeginsAfterOne(s, i - 2); }
    assert i + 2 < |s| ==> s[1..][i..i + 2] == s[i + 1..i + 3];
  }

  lemma FreeAfterThree(s: string, i: nat)
    requires |s| >= 3 && s[0] == '%' && 3 <= i < |s|
    ensures Free(s, i) <==> Free(s[3..], i - 3)
    ensures StaysAt(s, i) <==> StaysAt(s[3..], i - 3)
  {
    StartsEscape(s);
    BeginsAfterThree(s, i);
    if i >= 4 { BeginsAfterThree(s, i - 1); }
    if i >= 5 { BeginsAfterThree(s, i - 2); }
    assert i + 2 < |s| ==> s[3..][i - 2..i] == s[i + 1..i + 3];
  }

  lemma StayAfterOne(s: string)
    requires s != "" && s[0] != '%'
    ensures AllStay(s) <==> s[0] != '+' && s[0] != '&' && AllStay(s[1..])
    ensures |s| > 1 ==> (EndsEmpty(s) <==> EndsEmpty(s[1..]))
  {
    var t := s[1..];
    assert StaysAt(s, 0) <==> s[0] != '+' && s[0] != '&';
    forall i | 1 <= i < |s|
      ensures StaysAt(s, i) <==> StaysAt(t, i - 1)
      ensures Free(s, i) <==> Free(t, i - 1)
    {
      FreeAfterOne(s, i);
    }
    assert forall j :: 0 <= j < |t| ==> (StaysAt(t, j) <==> StaysAt(s, j + 1));
  }

  lemma StayAfterThree(s: string)
    requires |s| >= 3 && s[0] == '%'
    ensures AllStay(s) <==> Unescaped(s[1], s[2]) == s[1..3] && AllStay(s[3..])
    ensures EndsEmpty(s) <==> |s| > 3 && EndsEmpty(s[3..])
  {
    var t := s[3..];
    StartsEscape(s);
    assert StaysAt(s, 0) <==> Unescaped(s[1], s[2]) == s[1..3];
    assert StaysAt(s, 1) && StaysAt(s, 2) && !Free(s, 2);
    forall i | 3 <= i < |s|
      ensures StaysAt(s, i) <==> StaysAt(t, i - 3)
      ensures Free(s, i) <==> Free(t, i - 3)
    {
      FreeAfterThree(s, i);
    }
    assert forall j :: 0 <= j < |t| ==> (StaysAt(t, j) <==> StaysAt(s, j + 3));
  }

  // What has been stored stays stored.
  lemma {:induction false} ScanStores(word: string, rest: string, key: string, post: map<string, string>)
    requires post != map[]
    ensures Scan(word, rest, key, post) != Some(map[])
    decreases |rest|
  {
    if rest == "" {
    } else if rest[0] == '%' {
      if |rest| >= 3 { ScanStores(word + ['%'] + Unescaped(rest[1], rest[2]), rest[3..], key, post); }
    } else if rest[0] == '=' {
      ScanStores("", rest[1..], word, post);
    } else if rest[0] == '&' {
      ScanStores("", rest[1..], key, post[key := word]);
    } else {
      ScanStores(word + [if rest[0] == '+' then ' ' else rest[0]], rest[1..], key, post);
    }
  }

  // Nothing is stored, and nothing rewritten.
  predicate LeavesNothing(word: string, rest: string, key: string) {
    Scan(word, rest, key, map[]) == Some(map[]) && Restore(rest) == Some(rest)
  }

  lemma NothingAfterOne(word: string, s: string, key: string, word2: string, key2: string)
    requires s != "" && s[0] != '%' && s[0] != '+' && s[0] != '&'
    requires Scan(word, s, key, map[]) == Scan(word2, s[1..], key2, map[])
    ensures LeavesNothing(word, s, key) <==> LeavesNothing(word2, s[1..], key2)
  {
    if Restore(s[1..]).Some? {
      var r := Restore(s[1..]).value;
      assert Restore(s) == Some([s[0]] + r) && s == [s[0]] + s[1..];
      assert [s[0]] + r == s <==> r == s[1..] by {
        assert ([s[0]] + r)[1..] == r;
      }
    }
  }

  lemma NothingAfterThree(word: string, s: string, key: string)
    requires |s| >= 3 && s[0] == '%'
    ensures LeavesNothing(word, s, key) <==>
            Unescaped(s[1], s[2]) == s[1..3] && LeavesNothing(word + ['%'] + Unescaped(s[1], s[2]), s[3..], key)
  {
    if Restore(s[3..]).Some? {
      var u, r := Unescaped(s[1], s[2]), Restore(s[3..]).value;
      assert Restore(s) == Some(['%'] + u + r) && s == ['%'] + s[1..3] + s[3..];
      assert ['%'] + u + r == s <==> u == s[1..3] && r == s[3..] by {
        assert (['%'] + u + r)[1..3] == u && (['%'] + u + r)[3..] == r;
      }
    }
  }

  lemma {:induction false} StaysScanned(word: string, s: string, key: string)
    ensures LeavesNothing(word, s, key) <==> AllStay(s) && (if s == "" then word == "" else EndsEmpty(s))
    decreases |s|
  {
    if s == "" {
    } else if s[0] == '%' {
      if |s| >= 3 {
        NothingAfterThree(word, s, key);
        StayAfterThree(s);
        StaysScanned(word + ['%'] + Unescaped(s[1], s[2]), s[3..], key);
      } else {
        StartsEscape(s);
        assert !StaysAt(s, 0);
      }
    } else {
      StayAfterOne(s);
      if s[0] == '=' {
        NothingAfterOne(word, s, key, "", word);
        StaysScanned("", s[1..], word);
      } else if s[0] == '&' {
        assert key in map[key := word];
        ScanStores("", s[1..], key, map[key := word]);
      } else if s[0] != '+' {
        NothingAfterOne(word, s, key, word + [s[0]], key);
        StaysScanned(word + [s[0]], s[1..], key);
      }
    }
  }

  // A form is decoded to no pairs, and stays as it is, exactly when its characters say so.
  lemma StaysExact(s: string)
    ensures Decode(s) == Some(map[]) && Restore(s) == Some(s) <==> Stays(s)
  {
    StaysScanned("", s, "");
  }

  // ---------- The object ----------

  // The state of the scan at position i, with the word starting at j: what has been
  // rewritten, followed by what is still to be, is the whole rewriting of `original`.
  ghost predicate Scanned(body: string, original: string, j: nat, i: nat, key: string,
                          post: map<string, string>, post0: map<string, string>)
  {
    && j <= i <= |body| == |original|
    && body[i..] == original[i..]
    && Scan(body[j..i], body[i..], key, post) == Scan("", original, "", post0)
    && Restore(original) == Prefixed(body[..i], Restore(body[i..]))
  }

  function Prefixed(done: string, r: Option<string>): Option<string> {
    if r.None? then None else Some(done + r.value)
  }

  // A separator.
  lemma ScanSeparator(body: string, original: string, j: nat, i: nat, key: string,
                      post: map<string, string>, post0: map<string, string>)
    requires Scanned(body, original, j, i, key, post, post0) && i < |body| && (body[i] == '=' || body[i] == '&')
    ensures if body[i] == '=' then Scanned(body, original, i + 1, i + 1, body[j..i], post, post0)
            else Scanned(body, original, i + 1, i + 1, key, post[key := body[j..i]], post0)
  {
    Step(body, original, i);
    assert body[i + 1..i + 1] == "";
  }

  lemma Step(body: string, original: string, i: nat)
    requires i < |body| == |original| && body[i..] == original[i..] && body[i] != '%' && body[i] != '+'
    requires Restore(original) == Prefixed(body[..i], Restore(body[i..]))
    ensures body[i..][0] == body[i] && body[i..][1..] == body[i + 1..] == original[i + 1..]
    ensures Restore(original) == Prefixed(body[..i + 1], Restore(body[i + 1..]))
  {
    assert body[i..][1..] == body[i + 1..];
    assert original[i..][1..] == original[i + 1..];
    assert body[..i + 1] == body[..i] + [body[i]];
    if Restore(body[i + 1..]).Some? {
      Reassociate(body[..i], [body[i]], Restore(body[i + 1..]).value);
    }
  }

  // A character that stays as it is.
  lemma ScanPlain(body: string, original: string, j: nat, i: nat, key: string,
                  post: map<string, string>, post0: map<string, string>)
    requires Scanned(body, original, j, i, key, post, post0) && i < |body|
    requires body[i] != '=' && body[i] != '&' && body[i] != '%' && body[i] != '+'
    ensures Scanned(body, original, j, i + 1, key, post, post0)
  {
    Step(body, original, i);
    assert body[j..i + 1] == body[j..i] + [body[i]];
  }

  // Writing over the first n characters of what is still to be scanned.
  lemma ScanRewritten(body: string, new_: string, original: string, j: nat, i: nat, n: nat, key: string,
                      post: map<string, string>, post0: map<string, string>)
    requires Scanned(body, original, j, i, key, post, post0) && i + n <= |body| == |new_|
    requires new_[..i] == body[..i] && new_[i + n..] == body[i + n..]
    requires Scan(body[j..i], body[i..], key, post) == Scan(body[j..i] + new_[i..i + n], body[i..][n..], key, post)
    requires Restore(body[i..]) == Prefixed(new_[i..i + n], Restore(body[i..][n..]))
    ensures Scanned(new_, original, j, i + n, key, post, post0)
  {
    CutTwice(body, new_, j, i, n);
    assert original[i..][n..] == original[i + n..];
    if Restore(body[i + n..]).Some? {
      Reassociate(body[..i], new_[i..i + n], Restore(body[i + n..]).value);
    }
  }

  lemma CutTwice(body: string, new_: string, j: nat, i: nat, n: nat)
    requires j <= i && i + n <= |body| == |new_| && new_[..i] == body[..i]
    ensures body[i..][n..] == body[i + n..]
    ensures new_[j..i + n] == body[j..i] + new_[i..i + n]
    ensures new_[..i + n] == body[..i] + new_[i..i + n]
  {
    assert new_[..i][j..] == new_[j..i] && body[..i][j..] == body[j..i];
  }

  lemma ScanPlus(body: string, original: string, j: nat, i: nat, key: string,
                 post: map<string, string>, post0: map<string, string>)
    requires Scanned(body, original, j, i, key, post, post0) && i < |body| && body[i] == '+'
    ensures Scanned(body[i := ' '], original, j, i + 1, key, post, post0)
  {
    var b := body[i := ' '];
    assert body[i..][0] == body[i] && b[i..i + 1] == [' '];
    ScanRewritten(body, b, original, j, i, 1, key, post, post0);
  }

  lemma ScanEscape(body: string, original: string, j: nat, i: nat, key: string,
                   post: map<string, string>, post0: map<string, string>)
    requires Scanned(body, original, j, i, key, post, post0) && i + 2 < |body| && body[i] == '%'
    ensures var u := Unescaped(body[i + 1], body[i + 2]);
            Scanned(body[i + 1 := u[0]][i + 2 := u[1]], original, j, i + 3, key, post, post0)
  {
    var u := Unescaped(body[i + 1], body[i + 2]);
    var b := body[i + 1 := u[0]][i + 2 := u[1]];
    assert body[i..][0] == body[i] && body[i..][1] == body[i + 1] && body[i..][2] == body[i + 2];
    assert b[i..i + 3] == ['%'] + u;
    assert body[j..i] + b[i..i + 3] == body[j..i] + ['%'] + u;
    ScanRewritten(body, b, original, j, i, 3, key, post, post0);
  }

  // The fields of class Request that the decoder works on.
  class Form {
    var body: string
    var post: map<string, string>

    constructor (body: string, post: map<string, string>)
      ensures this.body == body && this.post == post
    {
      this.body, this.post := body, post;
    }

    // Decodes in place.  `defined` is false where the source reads and writes past the
    // end of the body, which is where an escape reaches past it.
    method ParseFromUrlencoded() returns (defined: bool)
      modifies this
      ensures defined <==> !RunsOver(old(body))
      ensures defined ==>
                && Some(post) == Scan("", old(body), "", old(post))
                && Some(body) == Restore(old(body))
    {
      DefinedExact("", body, "", post);
      defined := true;
      if |body| > 0 {
        defined := ScanBody();
      }
    }

    method ScanBody() returns (defined: bool)
      requires |body| > 0
      modifies this
      ensures defined <==> Restore(old(body)).Some?
      ensures defined ==>
                && Some(post) == Scan("", old(body), "", old(post))
                && Some(body) == Restore(old(body))
    {
      ghost var original, post0 := body, post;
      var key, value := "", "";
      var n := |body|;
      var i, j := 0, 0;
      assert body[..0] == "" && body[0..0] == "" && body[0..] == body;
      assert Restore(body).Some? ==> "" + Restore(body).value == Restore(body).value;
      while i < n
        invariant |body| == n && Scanned(body, original, j, i, key, post, post0)
        decreases n - i
      {
        var ch := body[i];
        if ch == '=' {
          ScanSeparator(body, original, j, i, key, post, post0);
          key := body[j..i];
          j := i + 1;
        } else if ch == '+' {
          ScanPlus(body, original, j, i, key, post, post0);
          body := body[i := ' '];
        } else if ch == '%' {
          if i + 2 >= n {
            assert body[i..][0] == '%';
            return false;
          }
          ScanEscape(body, original, j, i, key, post, post0);
          var written := Unescaped(body[i + 1], body[i + 2]);
          body := body[i + 1 := written[0]];
          body := body[i + 2 := written[1]];
          i := i + 2;
        } else if ch == '&' {
          ScanSeparator(body, original, j, i, key, post, post0);
          value := body[j..i];
          j := i + 1;
          post := post[key := value];
        } else {
          ScanPlain(body, original, j, i, key, post, post0);
        }
        i := i + 1;
      }
      assert body[i..] == "" && body[..i] == body && body[j..i] == body[j..] && body + "" == body;
      if key !in post && j < i {
        value := body[j..];
        post := post[key := value];
      }
      defined := true;
    }
  }

  // ---------- The encoder ----------

  predicate Separates(c: char) {
    c == '=' || c == '&' || c == '%' || c == '+'
  }

  // The character in hexadecimal.
  function Hex(c: char): string {
    var digits := "0123456789ABCDEF";
    ['%', digits[c as int / 16 % 16], digits[c as int % 16]]
  }

  // A space becomes '+'; a character with a meaning of its own is escaped.
  function Escape(s: string): string {
    if s == "" then ""
    else (if s[0] == ' ' then "+" else if Separates(s[0]) then Hex(s[0]) else [s[0]]) + Escape(s[1..])
  }

  function EncodePair(p: (string, string)): string {
    Escape(p.0) + (['='] + Escape(p.1))
  }

  // '=' between key and value, '&' between the pairs.
  function Encode(ps: Pairs): string {
    if ps == [] then ""
    else if |ps| == 1 then EncodePair(ps[0])
    else EncodePair(ps[0]) + (['&'] + Encode(ps[1..]))
  }

  predicate PlainText(s: string) {
    forall c :: c in s ==> !Separates(c)
  }

  // What the decoder makes of an encoded word: an escape is still there, with other
  // characters behind its '%'.
  function Garbled(s: string): string {
    if s == "" then ""
    else (if Separates(s[0]) then ['%'] + Unescaped(Hex(s[0])[1], Hex(s[0])[2]) else [s[0]]) + Garbled(s[1..])
  }

  // Only a word without escapes comes back as it was; any other comes back longer, and
  // with something to escape.
  lemma {:induction false} GarbledIsLonger(s: string)
    ensures |Garbled(s)| >= |s|
    ensures PlainText(s) ==> Garbled(s) == s
    ensures !PlainText(s) ==> |Garbled(s)| > |s| && !PlainText(Garbled(s))
  {
    if s != "" {
      GarbledIsLonger(s[1..]);
      assert s == [s[0]] + s[1..];
      var g := if Separates(s[0]) then ['%'] + Unescaped(Hex(s[0])[1], Hex(s[0])[2]) else [s[0]];
      assert Garbled(s) == g + Garbled(s[1..]);
      if Separates(s[0]) {
        assert Garbled(s)[0] == '%' && Separates('%');
      } else if !PlainText(s[1..]) {
        var c :| c in Garbled(s[1..]) && Separates(c);
        assert c in Garbled(s);
      }
    }
  }

  function PutAll(m: map<string, string>, ps: Pairs): map<string, string>
    decreases |ps|
  {
    if ps == [] then m else PutAll(m[ps[0].0 := ps[0].1], ps[1..])
  }

  function GarbledPairs(ps: Pairs): (r: Pairs)
    ensures |r| == |ps| && forall i :: 0 <= i < |ps| ==> r[i] == (Garbled(ps[i].0), Garbled(ps[i].1))
  {
    seq(|ps|, i requires 0 <= i < |ps| => (Garbled(ps[i].0), Garbled(ps[i].1)))
  }

  lemma ScanOne(word: string, c: char, tail: string, key: string, post: map<string, string>)
    requires !Separates(c)
    ensures Scan(word, [if c == ' ' then '+' else c] + tail, key, post) == Scan(word + [c], tail, key, post)
  {
    assert ([if c == ' ' then '+' else c] + tail)[1..] == tail;
  }

  lemma ScanThree(word: string, c: char, tail: string, key: string, post: map<string, string>)
    ensures Scan(word, Hex(c) + tail, key, post) ==
            Scan(word + (['%'] + Unescaped(Hex(c)[1], Hex(c)[2])), tail, key, post)
  {
    var s, u := Hex(c) + tail, Unescaped(Hex(c)[1], Hex(c)[2]);
    assert s[0] == '%' && s[1] == Hex(c)[1] && s[2] == Hex(c)[2] && s[3..] == tail;
    Reassociate(word, ['%'], u);
  }

  // An encoded word is read whole.
  lemma {:induction false} TakeWord(word: string, w: string, rest: string, key: string, post: map<string, string>)
    ensures Scan(word, Escape(w) + rest, key, post) == Scan(word + Garbled(w), rest, key, post)
    decreases |w|
  {
    if w == "" {
      assert Escape(w) + rest == rest && word + Garbled(w) == word;
    } else {
      var c := w[0];
      var e := if c == ' ' then "+" else if Separates(c) then Hex(c) else [c];
      var g := if Separates(c) then ['%'] + Unescaped(Hex(c)[1], Hex(c)[2]) else [c];
      Reassociate(e, Escape(w[1..]), rest);
      Reassociate(word, g, Garbled(w[1..]));
      if Separates(c) {
        ScanThree(word, c, Escape(w[1..]) + rest, key, post);
      } else {
        ScanOne(word, c, Escape(w[1..]) + rest, key, post);
      }
      TakeWord(word + g, w[1..], rest, key, post);
    }
  }

  lemma ScanEquals(word: string, tail: string, key: string, post: map<string, string>)
    ensures Scan(word, ['='] + tail, key, post) == Scan("", tail, word, post)
    ensures Scan(word, ['&'] + tail, key, post) == Scan("", tail, key, post[key := word])
  {
    assert (['='] + tail)[1..] == tail && (['&'] + tail)[1..] == tail;
  }

  // One pair, up to the end of its value.
  lemma TakePair(p: (string, string), rest: string, key: string, post: map<string, string>)
    ensures Scan("", EncodePair(p) + rest, key, post) == Scan(Garbled(p.1), rest, Garbled(p.0), post)
  {
    Reassociate(Escape(p.0), ['='] + Escape(p.1), rest);
    Reassociate(['='], Escape(p.1), rest);
    TakeWord("", p.0, ['='] + (Escape(p.1) + rest), key, post);
    assert "" + Garbled(p.0) == Garbled(p.0) && "" + Garbled(p.1) == Garbled(p.1);
    ScanEquals(Garbled(p.0), Escape(p.1) + rest, key, post);
    TakeWord("", p.1, rest, Garbled(p.0), post);
  }

  lemma ScanLast(p: (string, string), key: string, post: map<string, string>)
    ensures Scan("", EncodePair(p), key, post) ==
            Some(if Garbled(p.0) !in post && Garbled(p.1) != "" then post[Garbled(p.0) := Garbled(p.1)] else post)
  {
    assert EncodePair(p) + "" == EncodePair(p);
    TakePair(p, "", key, post);
  }

  // What the decoder makes of encoded pairs: every pair is stored as garbled, except that
  // the last is stored only if its value is not empty and its key is new.
  lemma {:induction false} ScanPairs(ps: Pairs, key: string, post: map<string, string>)
    requires ps != []
    ensures var gs := GarbledPairs(ps);
            var last, m := gs[|gs| - 1], PutAll(post, gs[..|gs| - 1]);
            Scan("", Encode(ps), key, post) ==
            Some(if last.0 !in m && last.1 != "" then m[last.0 := last.1] else m)
    decreases |ps|
  {
    var gs := GarbledPairs(ps);
    if |ps| == 1 {
      ScanLast(ps[0], key, post);
    } else {
      ScanFirst(ps, key, post);
      ScanPairs(ps[1..], gs[0].0, post[gs[0].0 := gs[0].1]);
      AllButFirst(ps, post);
    }
  }

  lemma ScanFirst(ps: Pairs, key: string, post: map<string, string>)
    requires |ps| > 1
    ensures var (k, v) := GarbledPairs(ps)[0];
            Scan("", Encode(ps), key, post) == Scan("", Encode(ps[1..]), k, post[k := v])
  {
    var (k, v) := GarbledPairs(ps)[0];
    TakePair(ps[0], ['&'] + Encode(ps[1..]), key, post);
    ScanEquals(v, Encode(ps[1..]), k, post);
  }

  lemma AllButFirst(ps: Pairs, post: map<string, string>)
    requires |ps| > 1
    ensures var gs, hs := GarbledPairs(ps), GarbledPairs(ps[1..]);
            && hs[|hs| - 1] == gs[|gs| - 1]
            && PutAll(post, gs[..|gs| - 1]) == PutAll(post[gs[0].0 := gs[0].1], hs[..|hs| - 1])
  {
    var gs := GarbledPairs(ps);
    assert GarbledPairs(ps[1..]) == gs[1..];
    assert gs[..|gs| - 1][1..] == gs[1..][..|gs| - 2];
  }

  lemma {:induction false} PutAllKeys(m: map<string, string>, ps: Pairs, k: string)
    ensures k in PutAll(m, ps) <==> k in m || exists i :: 0 <= i < |ps| && ps[i].0 == k
    decreases |ps|
  {
    if ps != [] {
      PutAllKeys(m[ps[0].0 := ps[0].1], ps[1..], k);
      if i :| 0 <= i < |ps| && ps[i].0 == k {
        if i > 0 { assert ps[1..][i - 1].0 == k; }
      }
      if i :| 0 <= i < |ps[1..]| && ps[1..][i].0 == k {
        assert ps[i + 1].0 == k;
      }
    }
  }

  lemma {:induction false} PutAllLast(m: map<string, string>, ps: Pairs)
    requires ps != []
    ensures PutAll(m, ps) == PutAll(m, ps[..|ps| - 1])[ps[|ps| - 1].0 := ps[|ps| - 1].1]
    decreases |ps|
  {
    if |ps| > 1 {
      PutAllLast(m[ps[0].0 := ps[0].1], ps[1..]);
      assert ps[..|ps| - 1][1..] == ps[1..][..|ps| - 2];
    }
  }

  ghost predicate DistinctKeys(ps: Pairs) {
    forall i, j :: 0 <= i < j < |ps| ==> ps[i].0 != ps[j].0
  }

  ghost predicate PlainPairs(ps: Pairs) {
    forall p :: p in ps ==> PlainText(p.0) && PlainText(p.1)
  }

  // With distinct keys each value is found again under its key.
  lemma {:induction false} PutAllFinds(m: map<string, string>, ps: Pairs, i: nat)
    requires i < |ps| && DistinctKeys(ps)
    ensures ps[i].0 in PutAll(m, ps) && PutAll(m, ps)[ps[i].0] == ps[i].1
    decreases |ps|
  {
    var init, last := ps[..|ps| - 1], ps[|ps| - 1];
    PutAllLast(m, ps);
    if i < |ps| - 1 {
      PutAllFinds(m, init, i);
    }
  }

  lemma {:induction false} PutAllSize(m: map<string, string>, ps: Pairs)
    ensures |PutAll(m, ps)| <= |m| + |ps|
    ensures DistinctKeys(ps) && (forall i :: 0 <= i < |ps| ==> ps[i].0 !in m) ==> |PutAll(m, ps)| == |m| + |ps|
    decreases |ps|
  {
    if ps != [] {
      var init, last := ps[..|ps| - 1], ps[|ps| - 1];
      PutAllLast(m, ps);
      PutAllSize(m, init);
      PutAllKeys(m, init, last.0);
    }
  }

  // A longest key among those with escapes.
  lemma {:induction false} LongestKey(ps: Pairs, n: nat) returns (i: nat)
    requires n <= |ps| && exists j :: 0 <= j < n && !PlainText(ps[j].0)
    ensures i < n && !PlainText(ps[i].0)
    ensures forall j :: 0 <= j < n && !PlainText(ps[j].0) ==> |ps[j].0| <= |ps[i].0|
  {
    if exists j :: 0 <= j < n - 1 && !PlainText(ps[j].0) {
      i := LongestKey(ps, n - 1);
      if !PlainText(ps[n - 1].0) && |ps[n - 1].0| > |ps[i].0| {
        i := n - 1;
      }
    } else {
      i := n - 1;
    }
  }

  // What the decoder stores of a non-empty form.
  function Stored(ps: Pairs): map<string, string>
    requires ps != []
  {
    var gs := GarbledPairs(ps);
    var last, m := gs[|gs| - 1], PutAll(map[], gs[..|gs| - 1]);
    if last.0 !in m && last.1 != "" then m[last.0 := last.1] else m
  }

  lemma DecodeIsStored(ps: Pairs)
    requires ps != []
    ensures Decode(Encode(ps)) == Some(Stored(ps))
  {
    ScanPairs(ps, "", map[]);
  }

  // A pair is stored under its garbled key, or it is the last, without a value, and leaves
  // the others fewer than the pairs.
  lemma StoredHas(ps: Pairs, i: nat)
    requires i < |ps|
    ensures Garbled(ps[i].0) in Stored(ps) || (Garbled(ps[i].1) == "" && |Stored(ps)| < |ps|)
  {
    var gs, n := GarbledPairs(ps), |ps| - 1;
    PutAllKeys(map[], gs[..n], gs[i].0);
    PutAllSize(map[], gs[..n]);
    if i < n {
      assert gs[..n][i].0 == gs[i].0;
    }
  }

  lemma StoredUnder(ps: Pairs, i: nat)
    requires i < |ps| && DistinctKeys(GarbledPairs(ps)) && Garbled(ps[i].1) != ""
    ensures Garbled(ps[i].0) in Stored(ps) && Stored(ps)[Garbled(ps[i].0)] == Garbled(ps[i].1)
  {
    var gs, n := GarbledPairs(ps), |ps| - 1;
    PutAllKeys(map[], gs[..n], gs[n].0);
    if i < n {
      PutAllFinds(map[], gs[..n], i);
    }
  }

  lemma GarbledIsNoKey(ps: Pairs, i: nat)
    requires i < |ps| && !PlainText(ps[i].0)
    requires forall j :: 0 <= j < |ps| && !PlainText(ps[j].0) ==> |ps[j].0| <= |ps[i].0|
    ensures Garbled(ps[i].0) !in PutAll(map[], ps)
  {
    GarbledIsLonger(ps[i].0);
    PutAllKeys(map[], ps, Garbled(ps[i].0));
  }

  // A key with an escape does not come back: the longest would come back longer.
  lemma {:induction false} EscapedKeyIsLost(ps: Pairs, j: nat)
    requires DistinctKeys(ps) && j < |ps| && !PlainText(ps[j].0)
    ensures Stored(ps) != PutAll(map[], ps)
  {
    var i := LongestKey(ps, |ps|);
    GarbledIsNoKey(ps, i);
    StoredHas(ps, i);
    PutAllSize(map[], ps);
  }

  ghost predicate PlainKeys(ps: Pairs) {
    forall j :: 0 <= j < |ps| ==> PlainText(ps[j].0)
  }

  lemma PlainKeysStay(ps: Pairs)
    requires PlainKeys(ps)
    ensures forall j :: 0 <= j < |ps| ==> GarbledPairs(ps)[j].0 == ps[j].0
  {
    forall j | 0 <= j < |ps|
      ensures GarbledPairs(ps)[j].0 == ps[j].0
    {
      GarbledIsLonger(ps[j].0);
    }
  }

  lemma {:induction false} EscapedValueChanges(ps: Pairs, i: nat)
    requires DistinctKeys(ps) && PlainKeys(ps) && i < |ps| && !PlainText(ps[i].1)
    ensures Stored(ps) != PutAll(map[], ps)
  {
    PlainKeysStay(ps);
    GarbledIsLonger(ps[i].1);
    PutAllFinds(map[], ps, i);
    StoredUnder(ps, i);
  }

  lemma EscapedIsLost(ps: Pairs)
    requires DistinctKeys(ps) && !PlainPairs(ps) && ps != []
    ensures Stored(ps) != PutAll(map[], ps)
  {
    if PlainKeys(ps) {
      var p :| p in ps && !(PlainText(p.0) && PlainText(p.1));
      var i :| 0 <= i < |ps| && ps[i] == p;
      EscapedValueChanges(ps, i);
    } else {
      var j :| 0 <= j < |ps| && !PlainText(ps[j].0);
      EscapedKeyIsLost(ps, j);
    }
  }

  lemma PlainPairsStay(ps: Pairs)
    requires PlainPairs(ps)
    ensures GarbledPairs(ps) == ps
  {
    forall i | 0 <= i < |ps|
      ensures GarbledPairs(ps)[i] == ps[i]
    {
      assert ps[i] in ps;
      GarbledIsLonger(ps[i].0);
      GarbledIsLonger(ps[i].1);
    }
  }

  lemma LastIsNew(ps: Pairs)
    requires DistinctKeys(ps) && ps != []
    ensures ps[|ps| - 1].0 !in PutAll(map[], ps[..|ps| - 1]) && ps[|ps| - 1].0 in PutAll(map[], ps)
  {
    PutAllLast(map[], ps);
    PutAllKeys(map[], ps[..|ps| - 1], ps[|ps| - 1].0);
  }

  lemma {:induction false} PlainIsStored(ps: Pairs)
    requires DistinctKeys(ps) && PlainPairs(ps) && ps != []
    ensures Stored(ps) == PutAll(map[], ps) <==> ps[|ps| - 1].1 != ""
  {
    PlainPairsStay(ps);
    LastIsNew(ps);
    PutAllLast(map[], ps);
  }

  // Decoding undoes encoding, for forms with distinct keys, if and only if nothing had to
  // be escaped and the last value is not empty.
  lemma {:induction false} RoundTrip(ps: Pairs)
    requires DistinctKeys(ps)
    ensures Decode(Encode(ps)) == Some(PutAll(map[], ps)) <==>
            PlainPairs(ps) && (ps == [] || ps[|ps| - 1].1 != "")
  {
    if ps != [] {
      DecodeIsStored(ps);
      if PlainPairs(ps) {
        PlainIsStored(ps);
      } else {
        EscapedIsLost(ps);
      }
    }
  }
}
