/**
 * The SQL sanitizer of app.py: the language model's completion is cleaned of
 * surrounding whitespace and markdown code fences (lines 85 and 88), then
 * checked against a denylist of destructive keywords (lines 93-96). A query
 * that matches is blocked and shown; any other query is allowed, exactly as
 * cleaned.
 */
module Sanitizer {
  import opened PyText

  /** The markdown fence marker removed everywhere. */
  const Fence: string := "```"

  /** The fence marker that opens an SQL block, removed before `Fence`. */
  const SqlFence: string := "```sql"

  /** The destructive keywords, each with its trailing space (app.py line 93). */
  const Denylist: seq<string> := ["drop ", "delete ", "update ", "insert "]

  /** The verdict of the sanitizer; either way it carries the cleaned query. */
  datatype Verdict = Blocked(query: string) | Allowed(query: string)

  // ---------------------------------------------------------------- clean

  /** `.replace("```sql", "").replace("```", "")`: every opening SQL fence,
      then every remaining fence marker, is removed. */
  function Unfence(s: string): string
  {
    Replace(Replace(s, SqlFence, ""), Fence, "")
  }

  /** `completion.strip()`, then unfenced and stripped again. */
  function Clean(completion: string): string
  {
    Strip(Unfence(Strip(completion)))
  }

  /** Removing every fence marker leaves a string that does not start with two
      backticks, when the input did not start with one. */
  lemma RemoveFenceHead(s: string)
    requires s == [] || s[0] != '`'
    ensures var r := Replace(s, Fence, ""); r == [] || r[0] != '`'
  {
    if s != [] {
      assert !(Fence <= s);
      assert Replace(s, Fence, "") == [s[0]] + Replace(s[1..], Fence, "");
    }
  }

  /** Three backticks at the start of a string form a fence marker. */
  lemma FenceAtStart(s: string)
    ensures |s| >= 3 && s[0] == '`' && s[1] == '`' && s[2] == '`' ==> Fence <= s
  {
    if |s| >= 3 && s[0] == '`' && s[1] == '`' && s[2] == '`' {
      assert s[..3] == Fence;
    }
  }

  /** After `replace("```", "")` no fence marker remains: the scan removes
      the leftmost three of every run of backticks, so each run keeps fewer
      than three. */
  lemma {:induction false} RemoveFenceComplete(s: string)
    ensures !Contains(Replace(s, Fence, ""), Fence)
    decreases |s|
  {
    var r := Replace(s, Fence, "");
    if Fence <= s {
      RemoveFenceComplete(s[3..]);
      assert r == Replace(s[3..], Fence, "");
    } else if s != [] {
      var t := s[1..];
      var rt := Replace(t, Fence, "");
      RemoveFenceComplete(t);
      assert r == [s[0]] + rt;
      assert r[1..] == rt;
      if s[0] != '`' {
        assert !(Fence <= r);
      } else {
        // `s` starts with one backtick but not three, so `t` does not start
        // with two and `rt` does not start with two either.
        FenceAtStart(s);
        assert |t| < 2 || t[0] != '`' || t[1] != '`';
        if t == [] || t[0] != '`' {
          RemoveFenceHead(t);
        } else {
          var u := t[1..];
          assert u == [] || u[0] != '`';
          assert !(Fence <= t);
          assert rt == [t[0]] + Replace(u, Fence, "");
          RemoveFenceHead(u);
          assert rt[..1] == "`";
        }
        assert !(Fence <= r);
      }
    }
  }

  /** The cleaned query holds no code fence. */
  lemma CleanHasNoFence(completion: string)
    ensures !Contains(Clean(completion), Fence)
  {
    var x := Replace(Strip(completion), SqlFence, "");
    var y := Unfence(Strip(completion));
    assert y == Replace(x, Fence, "");
    RemoveFenceComplete(x);
    if Contains(Strip(y), Fence) {
      StripContained(y, Fence);
    }
  }

  /** The cleaned query has no leading or trailing whitespace. */
  lemma CleanIsTrimmed(completion: string)
    ensures IsTrimmed(Clean(completion))
  {
    StripIsTrimmed(Unfence(Strip(completion)));
  }

  /** A query without a fence marker has no opening SQL fence either. */
  lemma NoSqlFenceWithoutFence(q: string)
    requires !Contains(q, Fence)
    ensures !Contains(q, SqlFence)
  {
    assert SqlFence == Fence + "sql";
    if Contains(q, SqlFence) {
      ContainsExtended(q, Fence, "sql");
    }
  }

  /** Backticks do meet across a removed opening SQL fence: two backticks in
      front of "```sql" and one after it form a new fence marker, which the
      second replacement then removes. */
  lemma BackticksMeetAcrossSqlFence(s: string)
    requires s == "``" + SqlFence + "`"
    ensures Replace(s, SqlFence, "") == Fence
    ensures Unfence(s) == ""
  {
    var t1 := s[1..];
    var t2 := s[2..];
    var tick := "`";
    assert t2 == SqlFence + tick && t2[|SqlFence|..] == tick;
    assert !(SqlFence <= s) && !(SqlFence <= t1) && SqlFence <= t2;
    ReplaceShort(tick, SqlFence, "");
    assert t1[1..] == t2 && s[1..] == t1;
    assert Replace(t2, SqlFence, "") == tick;
    assert Replace(s, SqlFence, "") == [s[0]] + ([t1[0]] + tick);
    assert Replace(Fence, Fence, "") == "" + Replace([], Fence, "");
  }

  /** A trimmed query without a fence is left as it is by cleaning. */
  lemma CleanFixesTrimmedUnfenced(q: string)
    requires IsTrimmed(q) && !Contains(q, Fence)
    ensures Clean(q) == q
  {
    StripTrimmed(q);
    NoSqlFenceWithoutFence(q);
    ReplaceAbsent(q, SqlFence, "");
    ReplaceAbsent(q, Fence, "");
    assert Unfence(q) == q;
  }

  /** Cleaning an already cleaned query returns it unchanged. */
  lemma CleanIdempotent(completion: string)
    ensures Clean(Clean(completion)) == Clean(completion)
  {
    CleanIsTrimmed(completion);
    CleanHasNoFence(completion);
    CleanFixesTrimmedUnfenced(Clean(completion));
  }

  // -------------------------------------------------------------- denylist

  /** `any(p in text for p in pats)`, scanning the patterns in order. */
  predicate AnyIn(pats: seq<string>, text: string) {
    |pats| > 0 && (Contains(text, pats[0]) || AnyIn(pats[1..], text))
  }

  /** `any(...)` holds exactly when some pattern of the list occurs in the text. */
  lemma {:induction false} AnyInIff(pats: seq<string>, text: string)
    ensures AnyIn(pats, text) <==> exists k :: 0 <= k < |pats| && Contains(text, pats[k])
  {
    if |pats| > 0 {
      AnyInIff(pats[1..], text);
      assert forall k :: 1 <= k < |pats| ==> pats[k] == pats[1..][k - 1];
    }
  }

  /** The test of app.py line 94 on the cleaned query. */
  predicate IsDestructive(query: string) {
    AnyIn(Denylist, Lower(query))
  }

  /** `any(...)` holds exactly when some pattern occurs at some index of the text. */
  lemma AnyInOccursIff(pats: seq<string>, text: string)
    ensures AnyIn(pats, text) <==> exists k, i :: 0 <= k < |pats| && OccursAt(text, pats[k], i)
  {
    AnyInIff(pats, text);
    if AnyIn(pats, text) {
      var k :| 0 <= k < |pats| && Contains(text, pats[k]);
      ContainsIff(text, pats[k]);
      var i :| OccursAt(text, pats[k], i);
      assert 0 <= k < |pats| && OccursAt(text, pats[k], i);
    }
    if exists k, i :: 0 <= k < |pats| && OccursAt(text, pats[k], i) {
      var k, i :| 0 <= k < |pats| && OccursAt(text, pats[k], i);
      ContainsIff(text, pats[k]);
    }
  }

  /** A query is destructive exactly when one of the four keywords, with its
      trailing space, occurs at some index of its lower-cased form: a plain
      substring test, not a test on SQL tokens. */
  lemma DestructiveIff(query: string)
    ensures IsDestructive(query) ==>
      exists k, i :: 0 <= k < |Denylist| && OccursAt(Lower(query), Denylist[k], i)
    ensures (exists k, i :: 0 <= k < |Denylist| && OccursAt(Lower(query), Denylist[k], i)) ==>
      IsDestructive(query)
  {
    AnyInOccursIff(Denylist, Lower(query));
  }

  /** Queries that differ only in ASCII letter case get the same decision. */
  lemma DecisionIgnoresCase(a: string, b: string)
    requires SameUpToCase(a, b)
    ensures IsDestructive(a) == IsDestructive(b)
  {
    LowerIgnoresCase(a, b);
  }

  // ------------------------------------------------------------------ gate

  /** Lines 85-96: clean the completion, then block it or let it through. */
  function Sanitize(completion: string): Verdict
  {
    var q := Clean(completion);
    if IsDestructive(q) then Blocked(q) else Allowed(q)
  }

  /** What the sanitizer promises: the verdict carries a trimmed, fence-free
      query, and it is `Blocked` exactly when a denylisted keyword occurs in
      the lower-cased query. */
  lemma SanitizeSpec(completion: string)
    ensures Sanitize(completion).query == Clean(completion)
    ensures IsTrimmed(Sanitize(completion).query)
    ensures !Contains(Sanitize(completion).query, Fence)
    ensures Sanitize(completion).Blocked? ==> exists k, i ::
      0 <= k < |Denylist| && OccursAt(Lower(Sanitize(completion).query), Denylist[k], i)
    ensures (exists k, i ::
      0 <= k < |Denylist| && OccursAt(Lower(Sanitize(completion).query), Denylist[k], i)) ==>
      Sanitize(completion).Blocked?
  {
    CleanIsTrimmed(completion);
    CleanHasNoFence(completion);
    DestructiveIff(Clean(completion));
  }

  /** Every keyword ends with a space, so a query without a single space
      character is never destructive, whatever words it holds. */
  lemma WithoutSpaceNeverDestructive(query: string)
    requires ' ' !in query
    ensures !IsDestructive(query)
  {
    var low := Lower(query);
    if ' ' in low {
      InLower(query, ' ');
    }
    AnyInIff(Denylist, low);
    forall k | 0 <= k < |Denylist| ensures !Contains(low, Denylist[k]) {
      if Contains(low, Denylist[k]) {
        ContainedCharsOccur(low, Denylist[k], |Denylist[k]| - 1);
      }
    }
  }

  /** A query in which no keyword's first letter occurs, in either case, is
      not destructive. */
  lemma WithoutKeywordLettersNotDestructive(query: string)
    requires 'd' !in query && 'D' !in query
    requires 'u' !in query && 'U' !in query
    requires 'i' !in query && 'I' !in query
    ensures !IsDestructive(query)
  {
    var low := Lower(query);
    if 'd' in low { InLower(query, 'd'); }
    if 'u' in low { InLower(query, 'u'); }
    if 'i' in low { InLower(query, 'i'); }
    AnyInIff(Denylist, low);
    forall k | 0 <= k < |Denylist| ensures !Contains(low, Denylist[k]) {
      if Contains(low, Denylist[k]) {
        ContainedCharsOccur(low, Denylist[k], 0);
      }
    }
  }

  /** A trimmed query without a backtick is its own cleaned form. */
  lemma PlainQueryIsClean(q: string)
    requires IsTrimmed(q) && '`' !in q
    ensures Clean(q) == q
  {
    if Contains(q, Fence) {
      ContainedCharsOccur(q, Fence, 0);
    }
    CleanFixesTrimmedUnfenced(q);
  }

  /** A trimmed completion without a backtick reaches the denylist test as it
      is, and the verdict carries it unchanged. */
  lemma PlainQueryVerdict(q: string)
    requires IsTrimmed(q) && '`' !in q
    ensures Sanitize(q) == if IsDestructive(q) then Blocked(q) else Allowed(q)
  {
    PlainQueryIsClean(q);
  }

  /** A closing fence after a body without backticks is removed, and the
      body is kept. */
  lemma ClosingFenceRemoved(body: string)
    requires '`' !in body
    ensures Replace(body + Fence, Fence, "") == body
  {
    ReplaceSkip(body, Fence, Fence, "");
    assert Replace(Fence, Fence, "") == "";
    assert body + "" == body;
  }

  /** Both markers of a block opened by a bare fence are removed. */
  lemma BothFencesRemoved(body: string)
    requires '`' !in body
    ensures Replace(Fence + body + Fence, Fence, "") == body
  {
    var s := Fence + body + Fence;
    assert s == Fence + (body + Fence);
    assert Fence <= s && s[|Fence|..] == body + Fence;
    ClosingFenceRemoved(body);
  }

  /** The opening SQL fence of a block is removed and the rest is kept. */
  lemma OpeningSqlFenceRemoved(body: string)
    requires '`' !in body
    ensures Replace(SqlFence + body + Fence, SqlFence, "") == body + Fence
  {
    var s := SqlFence + body + Fence;
    assert s == SqlFence + (body + Fence);
    assert SqlFence <= s && s[|SqlFence|..] == body + Fence;
    assert Replace(s, SqlFence, "") == "" + Replace(body + Fence, SqlFence, "");
    ReplaceSkip(body, Fence, SqlFence, "");
    ReplaceShort(Fence, SqlFence, "");
  }

  /** The shape the prompt asks the model not to produce: an SQL block opened
      by "```sql" and closed by "```". Cleaning keeps the stripped body. */
  lemma CleanSqlBlock(body: string)
    requires '`' !in body
    ensures Clean(SqlFence + body + Fence) == Strip(body)
  {
    var s := SqlFence + body + Fence;
    assert IsTrimmed(s);
    StripTrimmed(s);
    OpeningSqlFenceRemoved(body);
    ClosingFenceRemoved(body);
    assert Unfence(s) == body;
  }

  /** In a block whose body has no backtick, an opening SQL fence can only
      stand at the very start, and only when the body begins with "sql". */
  lemma SqlFenceInPlainBlock(body: string, i: int)
    requires '`' !in body && OccursAt(Fence + body + Fence, SqlFence, i)
    ensures i == 0 && "sql" <= body
  {
    var s := Fence + body + Fence;
    assert forall k :: 3 <= k < |s| - 3 ==> s[k] == body[k - 3];
    assert forall k :: 0 <= k < |s| && s[k] != '`' ==> 3 <= k < |s| - 3;
    assert s[i..][3] == 's' && s[i..][2] == '`';
    assert s[i + 3] == 's' && s[i + 2] == '`';
    assert i + 3 < |s| - 3;
    assert i + 2 < 3;
    assert s[i..][4] == 'q' && s[i..][5] == 'l';
    assert s[i + 5] == 'l';
    assert 5 < |s| - 3;
    assert body[..3] == SqlFence[3..];
  }

  /** So a block whose body does not begin with "sql" holds no opening SQL fence. */
  lemma PlainBlockHasNoSqlFence(body: string)
    requires '`' !in body && !("sql" <= body)
    ensures !Contains(Fence + body + Fence, SqlFence)
  {
    var s := Fence + body + Fence;
    if Contains(s, SqlFence) {
      ContainsIff(s, SqlFence);
      var i :| OccursAt(s, SqlFence, i);
      SqlFenceInPlainBlock(body, i);
    }
  }

  /** A block opened by a bare "```" (or by a tag other than "sql" in lower
      case) loses both markers, and the tag stays. */
  lemma CleanPlainBlock(body: string)
    requires '`' !in body && !("sql" <= body)
    ensures Clean(Fence + body + Fence) == Strip(body)
  {
    var s := Fence + body + Fence;
    assert IsTrimmed(s);
    StripTrimmed(s);
    PlainBlockHasNoSqlFence(body);
    ReplaceAbsent(s, SqlFence, "");
    BothFencesRemoved(body);
  }

  // ------------------------------------------------------- concrete cases

  /** The usual completion: one statement on its own line between an opening
      SQL fence and a closing fence cleans to that statement. */
  lemma CleanSqlLine(stmt: string)
    requires '`' !in stmt && IsTrimmed(stmt)
    ensures Clean(SqlFence + "\n" + stmt + "\n" + Fence) == stmt
  {
    var nl := "\n";
    var body := nl + stmt + nl;
    assert '`' !in body;
    assert SqlFence + nl + stmt + nl + Fence == SqlFence + body + Fence;
    CleanSqlBlock(body);
    StripAround(nl, stmt, nl);
  }

  /** A fenced completion is cleaned to the bare statement. */
  lemma FencedSelectIsCleaned(s: string)
    requires s == "```sql\nSELECT 1\n```"
    ensures Clean(s) == "SELECT 1"
  {
    var stmt := "SELECT 1";
    assert s == SqlFence + "\n" + stmt + "\n" + Fence;
    assert '`' !in stmt && IsTrimmed(stmt);
    CleanSqlLine(stmt);
  }

  /** "SELECT 1" holds no denylisted keyword. */
  lemma SelectOneNotDestructive(q: string)
    requires q == "SELECT 1"
    ensures !IsDestructive(q)
  {
    WithoutKeywordLettersNotDestructive(q);
  }

  /** The cleaned fenced statement is allowed. */
  lemma FencedSelectIsAllowed(s: string)
    requires s == "```sql\nSELECT 1\n```"
    ensures Sanitize(s) == Allowed("SELECT 1")
  {
    FencedSelectIsCleaned(s);
    SelectOneNotDestructive(Clean(s));
  }

  /** A trimmed query without backticks that starts with a denylisted
      keyword, in any letter case, is blocked as it is. */
  lemma LeadingKeywordBlocked(q: string, k: nat)
    requires IsTrimmed(q) && '`' !in q
    requires k < |Denylist| && Denylist[k] <= Lower(q)
    ensures Sanitize(q) == Blocked(q)
  {
    assert OccursAt(Lower(q), Denylist[k], 0);
    DestructiveIff(q);
    PlainQueryVerdict(q);
  }

  /** The lower-cased drop statement starts with "drop ". */
  lemma DropTableStartsWithDrop(q: string)
    requires q == "DROP TABLE user_data"
    ensures Denylist[0] <= Lower(q)
  {
    var l := Lower(q);
    assert l[0] == 'd' && l[1] == 'r' && l[2] == 'o' && l[3] == 'p' && l[4] == ' ';
    assert l[..5] == Denylist[0];
  }

  /** A drop statement, in upper case, is blocked. */
  lemma DropTableIsBlocked(q: string)
    requires q == "DROP TABLE user_data"
    ensures Sanitize(q) == Blocked(q)
  {
    assert IsTrimmed(q) && '`' !in q;
    DropTableStartsWithDrop(q);
    LeadingKeywordBlocked(q, 0);
  }

  /** A trimmed query with neither a backtick nor a space is allowed as it
      is, whatever keywords it holds. */
  lemma NoSpaceQueryAllowed(q: string)
    requires IsTrimmed(q) && '`' !in q && ' ' !in q
    ensures Sanitize(q) == Allowed(q)
  {
    WithoutSpaceNeverDestructive(q);
    PlainQueryVerdict(q);
  }

  /** The rule is deliberately weak: a keyword followed by a tab, a line
      break or a parenthesis instead of a space is let through unchanged. */
  lemma KeywordWithoutSpaceIsAllowed(q: string)
    requires q == "DROP\tTABLE\tuser_data" || q == "delete\nFROM\nuser_data" || q == "insert(1)"
    ensures Sanitize(q) == Allowed(q)
  {
    if q == "DROP\tTABLE\tuser_data" {
      assert IsTrimmed(q) && '`' !in q && ' ' !in q;
      NoSpaceQueryAllowed(q);
    } else if q == "delete\nFROM\nuser_data" {
      assert IsTrimmed(q) && '`' !in q && ' ' !in q;
      NoSpaceQueryAllowed(q);
    } else {
      assert IsTrimmed(q) && '`' !in q && ' ' !in q;
      NoSpaceQueryAllowed(q);
    }
  }

  /** The denylist sees the cleaned text, not the completion: a keyword whose
      trailing space is whitespace at the end of the completion loses that
      space to `strip()`, and the query is allowed. */
  lemma StrippedKeywordSpaceAllowed(query: string, tail: string)
    requires IsTrimmed(query) && '`' !in query && ' ' !in query
    requires forall k :: 0 <= k < |tail| ==> IsSpace(tail[k])
    ensures Sanitize(query + tail) == Allowed(query)
  {
    StripAround([], query, tail);
    assert [] + query + tail == query + tail;
    StripTrimmed(query);
    PlainQueryIsClean(query);
    assert Clean(query + tail) == Clean(query);
    WithoutSpaceNeverDestructive(query);
  }

  /** A completion that ends in "DROP " contains "drop " once lower-cased,
      and is still allowed, as the statement without its last space. */
  lemma TrailingDropIsAllowed(c: string)
    requires c == "SELECT\t1;\tDROP "
    ensures Contains(Lower(c), Denylist[0])
    ensures Sanitize(c) == Allowed("SELECT\t1;\tDROP")
  {
    var query := "SELECT\t1;\tDROP";
    var tail := " ";
    assert c == query + tail;
    assert IsTrimmed(query) && '`' !in query && ' ' !in query;
    assert IsSpace(tail[0]);
    StrippedKeywordSpaceAllowed(query, tail);
    TrailingDropOccurs(c);
  }

  /** "drop " stands at the end of that completion, once lower-cased. */
  lemma TrailingDropOccurs(c: string)
    requires c == "SELECT\t1;\tDROP "
    ensures Contains(Lower(c), Denylist[0])
  {
    var l := Lower(c);
    var i := |c| - 5;
    assert l[i] == 'd' && l[i + 1] == 'r' && l[i + 2] == 'o' && l[i + 3] == 'p' && l[i + 4] == ' ';
    assert l[i..] == Denylist[0];
    assert OccursAt(l, Denylist[0], i);
    ContainsIff(l, Denylist[0]);
  }

  /** A block opened by a bare fence keeps whatever stands on its first line,
      unless that line starts with "sql": only the two markers are removed. */
  lemma CleanTaggedLine(text: string)
    requires '`' !in text && IsTrimmed(text)
    requires !("sql" <= text)
    ensures Clean(Fence + text + "\n" + Fence) == text
  {
    var body := text + "\n";
    LineKeepsTag(text);
    assert Fence + text + "\n" + Fence == Fence + body + Fence;
    CleanPlainBlock(body);
    assert body == [] + text + "\n";
    StripAround([], text, "\n");
  }

  /** A line break after the text adds no backtick and makes no "sql" tag. */
  lemma LineKeepsTag(text: string)
    ensures '`' in text + "\n" ==> '`' in text
    ensures "sql" <= text + "\n" ==> "sql" <= text
  {
    var body := text + "\n";
    assert body[|text|] == '\n';
    assert forall k :: 0 <= k < |text| ==> body[k] == text[k];
  }

  /** The fence marker is removed case-sensitively: an upper-case `SQL` tag
      stays in front of the statement. */
  lemma UpperCaseFenceTagRemains(s: string)
    requires s == "```SQL\nSELECT 1\n```"
    ensures Clean(s) == "SQL\nSELECT 1"
  {
    var text := "SQL\nSELECT 1";
    assert s == Fence + text + "\n" + Fence;
    assert '`' !in text && IsTrimmed(text);
    CleanTaggedLine(text);
  }
}
