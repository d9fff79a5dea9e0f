/**
 * The body rewrite of `ChangeObjectNameInterceptor`: the server names the
 * root object of every JSON response after its content (`"userAccount"`,
 * `"statementList"`), and the client expects the key `"data"`. The rewrite
 * replaces the first maximal run of word characters of the body (the regex
 * `([\w]+)` with `replaceFirst`) by `KEY_NAME`; a missing body becomes the
 * text `"null"`.
 */
module Interceptor {
  import opened RegexClasses

  datatype Option<T> = None | Some(value: T)

  /** `KEY_NAME`: the key the client's response type expects. */
  const KEY_NAME: string := "data"

  predicate NoWordChars(s: string) {
    forall j :: 0 <= j < |s| ==> !IsWordChar(s[j])
  }

  predicate AllWordChars(s: string) {
    forall j :: 0 <= j < |s| ==> IsWordChar(s[j])
  }

  /**
   * `s == a + w + b` where `w` is the leftmost-longest match of `[\w]+`:
   * `a` holds no word character, `w` is a non-empty run of them and `b` does
   * not continue the run.
   */
  predicate IsFirstWordRun(s: string, a: string, w: string, b: string) {
    s == a + w + b && NoWordChars(a) && w != [] && AllWordChars(w) && (b == [] || !IsWordChar(b[0]))
  }

  /** Where the regex engine starts its first match: the first `\w`, or `|s|`. */
  function FirstWordIndex(s: string): (i: nat)
    ensures i <= |s|
    ensures forall j :: 0 <= j < i ==> !IsWordChar(s[j])
    ensures i < |s| ==> IsWordChar(s[i])
  {
    if s == [] || IsWordChar(s[0]) then 0 else 1 + FirstWordIndex(s[1..])
  }

  /** Where the greedy `+` stops: the end of the run of `\w` from `start`. */
  function WordRunEnd(s: string, start: nat): (e: nat)
    requires start <= |s|
    ensures start <= e <= |s|
    ensures forall j :: start <= j < e ==> IsWordChar(s[j])
    ensures e < |s| ==> !IsWordChar(s[e])
    decreases |s| - start
  {
    if start == |s| || !IsWordChar(s[start]) then start else WordRunEnd(s, start + 1)
  }

  /** A decomposition into prefix, first run and rest is the one the regex engine finds. */
  lemma FirstWordRunIsUnique(s: string, a: string, w: string, b: string)
    requires IsFirstWordRun(s, a, w, b)
    ensures FirstWordIndex(s) == |a| && WordRunEnd(s, |a|) == |a| + |w|
  {
    assert s[|a|] == w[0];
    assert forall j :: |a| <= j < |a| + |w| ==> s[j] == w[j - |a|];
    assert b != [] ==> s[|a| + |w|] == b[0];
  }

  // The four facts that make up `FirstWordRunExists`, proved one at a time.

  lemma PrefixHasNoWordChar(s: string, i: nat)
    requires i == FirstWordIndex(s)
    ensures NoWordChars(s[..i])
  {
  }

  lemma RunHasOnlyWordChars(s: string, i: nat, e: nat)
    requires i == FirstWordIndex(s) < |s| && e == WordRunEnd(s, i)
    ensures s[i..e] != [] && AllWordChars(s[i..e])
  {
  }

  lemma RestDoesNotContinueRun(s: string, i: nat, e: nat)
    requires i == FirstWordIndex(s) < |s| && e == WordRunEnd(s, i)
    ensures s[e..] == [] || !IsWordChar(s[e..][0])
  {
  }

  lemma SplitAtRun(s: string, i: nat, e: nat)
    requires i <= e <= |s|
    ensures s == s[..i] + s[i..e] + s[e..]
  {
  }

  /** A body with a word character has a first run. */
  lemma FirstWordRunExists(s: string)
    requires !NoWordChars(s)
    ensures FirstWordIndex(s) < |s|
    ensures IsFirstWordRun(s, s[..FirstWordIndex(s)], s[FirstWordIndex(s)..WordRunEnd(s, FirstWordIndex(s))],
                           s[WordRunEnd(s, FirstWordIndex(s))..])
  {
    var i := FirstWordIndex(s);
    var e := WordRunEnd(s, i);
    PrefixHasNoWordChar(s, i);
    RunHasOnlyWordChars(s, i, e);
    RestDoesNotContinueRun(s, i, e);
    SplitAtRun(s, i, e);
  }

  /**
   * `s.replaceFirst(Regex("([\\w]+)"), KEY_NAME)`. The replacement text has
   * no `$` or `\`, so it is inserted literally.
   */
  function ReplaceFirstWordRun(s: string): (r: string)
    ensures NoWordChars(s) ==> r == s
    ensures forall a, w, b :: IsFirstWordRun(s, a, w, b) ==> r == a + KEY_NAME + b
  {
    var i := FirstWordIndex(s);
    var e := if i == |s| then i else WordRunEnd(s, i);
    assert forall a, w, b :: IsFirstWordRun(s, a, w, b) ==> i < |s| && a == s[..i] && b == s[e..] by {
      forall a, w, b | IsFirstWordRun(s, a, w, b) ensures i < |s| && a == s[..i] && b == s[e..] {
        FirstWordRunIsUnique(s, a, w, b);
      }
    }
    if i == |s| then s else s[..i] + KEY_NAME + s[e..]
  }

  /**
   * `getBodyWithModifiedKeyName`: a missing body is the text `"null"`;
   * otherwise the first key (the first run of word characters) becomes
   * `KEY_NAME` and everything before and after it is kept as it is.
   */
  function GetBodyWithModifiedKeyName(responseBody: Option<string>): (r: string)
    ensures responseBody == None ==> r == "null"
    ensures responseBody.Some? && NoWordChars(responseBody.value) ==> r == responseBody.value
    ensures responseBody.Some? ==>
      forall a, w, b :: IsFirstWordRun(responseBody.value, a, w, b) ==> r == a + KEY_NAME + b
  {
    match responseBody
    case None => "null"
    case Some(body) => ReplaceFirstWordRun(body)
  }

  /** `ReplaceFirstWordRun`'s postcondition, for one given decomposition. */
  lemma RenamesGivenRun(s: string, a: string, w: string, b: string)
    requires IsFirstWordRun(s, a, w, b)
    ensures ReplaceFirstWordRun(s) == a + KEY_NAME + b
  {
  }

  /**
   * `KEY_NAME` is itself one complete match of `[\w]+`, which is what makes
   * the rewrite stable.
   */
  lemma KeyNameIsAWordRun()
    ensures KEY_NAME != [] && AllWordChars(KEY_NAME)
  {
    assert KEY_NAME == ['d', 'a', 't', 'a'];
  }

  /** After the rewrite, `KEY_NAME` is the first run of word characters. */
  lemma KeyNameIsFirstRunAfterRewrite(a: string, b: string)
    requires NoWordChars(a) && (b == [] || !IsWordChar(b[0]))
    ensures IsFirstWordRun(a + KEY_NAME + b, a, KEY_NAME, b)
  {
    KeyNameIsAWordRun();
  }

  /** Rewriting a body a second time changes nothing. */
  lemma ReplaceFirstWordRunIsIdempotent(s: string)
    ensures ReplaceFirstWordRun(ReplaceFirstWordRun(s)) == ReplaceFirstWordRun(s)
  {
    if !NoWordChars(s) {
      FirstWordRunExists(s);
      var i := FirstWordIndex(s);
      var e := WordRunEnd(s, i);
      var a, w, b := s[..i], s[i..e], s[e..];
      RenamesGivenRun(s, a, w, b);
      KeyNameIsFirstRunAfterRewrite(a, b);
      RenamesGivenRun(a + KEY_NAME + b, a, KEY_NAME, b);
    }
  }

  /**
   * The same for the whole rewrite of a present body. A missing body is not
   * covered: see `MissingBodyIsNotStable`.
   */
  lemma GetBodyWithModifiedKeyNameIsIdempotent(body: string)
    ensures GetBodyWithModifiedKeyName(Some(GetBodyWithModifiedKeyName(Some(body))))
         == GetBodyWithModifiedKeyName(Some(body))
  {
    ReplaceFirstWordRunIsIdempotent(body);
  }

  /**
   * A missing body becomes the text `null`, which is itself a word run: fed
   * back as a present body it is rewritten to `data`.
   */
  lemma MissingBodyIsNotStable()
    ensures GetBodyWithModifiedKeyName(None) == "null"
    ensures GetBodyWithModifiedKeyName(Some(GetBodyWithModifiedKeyName(None))) == KEY_NAME
  {
    var n := GetBodyWithModifiedKeyName(None);
    assert n == ['n', 'u', 'l', 'l'];
    assert IsFirstWordRun(n, [], n, []);
    assert [] + KEY_NAME + [] == KEY_NAME;
  }

  /**
   * The rewrite leaves a body unchanged exactly when it has no word
   * character or its first key already is `KEY_NAME`.
   */
  lemma UnchangedIffNoKeyOrAlreadyData(s: string)
    ensures ReplaceFirstWordRun(s) == s <==>
      NoWordChars(s) || s[FirstWordIndex(s)..WordRunEnd(s, FirstWordIndex(s))] == KEY_NAME
  {
    if !NoWordChars(s) {
      FirstWordRunExists(s);
      var i := FirstWordIndex(s);
      var e := WordRunEnd(s, i);
      var a, w, b := s[..i], s[i..e], s[e..];
      assert ReplaceFirstWordRun(s) == a + KEY_NAME + b;
      if ReplaceFirstWordRun(s) == s {
        assert a + KEY_NAME + b == a + w + b;
        assert |w| == |KEY_NAME|;
        assert forall j :: 0 <= j < |w| ==> w[j] == (a + w + b)[|a| + j] == (a + KEY_NAME + b)[|a| + j] == KEY_NAME[j];
      }
    }
  }

  /**
   * A JSON object body `{"<key>…`: whatever the key and whatever follows
   * it, the key becomes `KEY_NAME` and nothing else changes.
   */
  lemma RootKeyIsRenamed(key: string, rest: string)
    requires key != [] && AllWordChars(key)
    requires rest == [] || !IsWordChar(rest[0])
    ensures GetBodyWithModifiedKeyName(Some("{\"" + key + rest)) == "{\"" + KEY_NAME + rest
  {
    assert IsFirstWordRun("{\"" + key + rest, "{\"", key, rest);
  }

  /** The login response: `{"userAccount":…}` becomes `{"data":…}` for every value. */
  lemma UserAccountResponse(value: string)
    ensures GetBodyWithModifiedKeyName(Some("{\"userAccount\":" + value)) == "{\"data\":" + value
  {
    assert "{\"userAccount\":" + value == "{\"" + "userAccount" + ("\":" + value) by {
      assert "{\"userAccount\":" == "{\"" + "userAccount" + "\":";
    }
    assert "{\"data\":" + value == "{\"" + KEY_NAME + ("\":" + value) by {
      assert "{\"data\":" == "{\"" + KEY_NAME + "\":";
    }
    RootKeyIsRenamed("userAccount", "\":" + value);
  }

  /** The statement response: `{"statementList":…}` becomes `{"data":…}` for every value. */
  lemma StatementListResponse(value: string)
    ensures GetBodyWithModifiedKeyName(Some("{\"statementList\":" + value)) == "{\"data\":" + value
  {
    assert "{\"statementList\":" + value == "{\"" + "statementList" + ("\":" + value) by {
      assert "{\"statementList\":" == "{\"" + "statementList" + "\":";
    }
    assert "{\"data\":" + value == "{\"" + KEY_NAME + ("\":" + value) by {
      assert "{\"data\":" == "{\"" + KEY_NAME + "\":";
    }
    RootKeyIsRenamed("statementList", "\":" + value);
  }
}
