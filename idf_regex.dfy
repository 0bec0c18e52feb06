/** The regular expression that `re_substitute` (epw/core.py) builds from an
    object marker, a name marker and a field name:

      (?P<g1>OBJ.*?)(?P<g2>NAME.*?^ *)[^,;]+(?P<g3>(,|;) +!- FIELD)

    compiled with MULTILINE and DOTALL, and replaced everywhere by
    g1 + g2 + str(value) + g3.  The markers are treated as literal text.
    Positions index the whole string, so `^` keeps its meaning (position 0 or
    just after a line feed) while `re.sub` walks from one match to the next. */
module IdfRegex {
  import opened Wrappers

  /** `m` occurs in `s` at position `p`. */
  predicate IsAt(s: string, p: nat, m: string)
  {
    p + |m| <= |s| && forall k :: 0 <= k < |m| ==> s[p + k] == m[k]
  }

  predicate IsDelim(ch: char)
  {
    ch == ',' || ch == ';'
  }

  /** `^` in MULTILINE mode. */
  predicate LineStart(s: string, l: nat)
  {
    l == 0 || (l <= |s| && s[l - 1] == '\n')
  }

  /** The literal that opens the field comment. */
  const CommentMarker: string := "!- "

  /** First occurrence of `m` at or after `from`. */
  function Find(s: string, m: string, from: nat): (r: Option<nat>)
    ensures r.Some? ==> from <= r.value && IsAt(s, r.value, m)
    ensures r.Some? ==> forall q :: from <= q < r.value ==> !IsAt(s, q, m)
    decreases |s| - from
  {
    if from + |m| > |s| then None
    else if IsAt(s, from, m) then Some(from)
    else Find(s, m, from + 1)
  }

  /** First `,` or `;` at or after `from`. */
  function NextDelim(s: string, from: nat): (r: Option<nat>)
    ensures r.Some? ==> from <= r.value < |s| && IsDelim(s[r.value])
    decreases |s| - from
  {
    if from >= |s| then None
    else if IsDelim(s[from]) then Some(from)
    else NextDelim(s, from + 1)
  }

  /** Length of the run of spaces starting at `from` (a greedy ` *`). */
  function SpaceRun(s: string, from: nat): (n: nat)
    requires from <= |s|
    ensures from + n <= |s|
    ensures from + n == |s| || s[from + n] != ' '
    decreases |s| - from
  {
    if from == |s| || s[from] != ' ' then 0 else 1 + SpaceRun(s, from + 1)
  }

  /** `s[from..e]` is one or more spaces followed by `!- field`. */
  predicate SpacedComment(s: string, from: nat, e: nat, field: string)
  {
    && from + 1 + |CommentMarker + field| <= e <= |s|
    && var k := e - |CommentMarker + field|;
       && (forall q :: from <= q < k ==> s[q] == ' ')
       && IsAt(s, k, CommentMarker + field)
  }

  /** The fragment ` +!- field` tried just after the delimiter at `c`;
      the end of the comment when it matches. */
  function CommentEnd(s: string, c: nat, field: string): (r: Option<nat>)
    requires c < |s|
    ensures r.Some? ==> SpacedComment(s, c + 1, r.value, field) && r.value <= |s|
  {
    var k := c + 1 + SpaceRun(s, c + 1);
    SpaceRunSpaces(s, c + 1);
    if k > c + 1 && IsAt(s, k, CommentMarker + field)
    then Some(k + |CommentMarker + field|)
    else None
  }

  /** Where the value token of a field line starts, where its delimiter is,
      and where the `!- field` comment ends. */
  datatype FieldLine = FieldLine(tokenAt: nat, delimAt: nat, endAt: nat)

  /** The tail `^ *[^,;]+(,|;) +!- field` of the pattern tried at `l`.  The
      greedy ` *` takes every leading space unless the token would then be
      empty, in which case it gives the last space back. */
  function FieldLineAt(s: string, l: nat, field: string): (r: Option<FieldLine>)
    ensures r.Some? ==> l <= r.value.tokenAt < r.value.delimAt < r.value.endAt <= |s|
  {
    if !LineStart(s, l) then None
    else match NextDelim(s, l)
      case None => None
      case Some(c) =>
        if c == l then None
        else match CommentEnd(s, c, field)
          case None => None
          case Some(e) =>
            var sp := SpaceRun(s, l);
            Some(FieldLine(if l + sp < c then l + sp else c - 1, c, e))
  }

  /** `f` splits the line at `l` as the tail of the pattern does: spaces,
      a token without `,`/`;`, a `,`/`;`, then spaces and `!- field`. */
  ghost predicate FieldLineShape(s: string, l: nat, f: FieldLine, field: string)
  {
    && LineStart(s, l) && l <= f.tokenAt < f.delimAt < |s|
    && (forall q :: l <= q < f.tokenAt ==> s[q] == ' ')
    && (forall q :: f.tokenAt <= q < f.delimAt ==> !IsDelim(s[q]))
    && IsDelim(s[f.delimAt])
    && SpacedComment(s, f.delimAt + 1, f.endAt, field)
  }

  /** What a field line found by `FieldLineAt` looks like. */
  lemma FieldLineAtSound(s: string, l: nat, field: string)
    requires FieldLineAt(s, l, field).Some?
    ensures FieldLineShape(s, l, FieldLineAt(s, l, field).value, field)
  {
    NextDelimFirst(s, l);
    SpaceRunSpaces(s, l);
    var c := NextDelim(s, l).value;
    SpaceRunSpaces(s, c + 1);
  }

  /** First position at or after `from` where `FieldLineAt` succeeds: the
      lazy `.*?` before `^` tries line starts in order. */
  function FindFieldLine(s: string, from: nat, field: string): (r: Option<nat>)
    ensures r.Some? ==> from <= r.value < |s| && FieldLineAt(s, r.value, field).Some?
    ensures r.Some? ==> forall q :: from <= q < r.value ==> FieldLineAt(s, q, field).None?
    ensures r.None? ==> forall q :: from <= q ==> FieldLineAt(s, q, field).None?
    decreases |s| - from
  {
    if from >= |s| then None
    else if FieldLineAt(s, from, field).Some? then Some(from)
    else FindFieldLine(s, from + 1, field)
  }

  /** One match of the pattern: where the object marker, the name marker, the
      field's line, the value token, the delimiter and the end of the comment
      are. */
  datatype Match = Match(objAt: nat, nameAt: nat, lineAt: nat, tokenAt: nat, delimAt: nat, endAt: nat)

  /** Independent description of a match of the pattern with literal markers
      (any of the possible splits; the regex engine picks one of them). */
  ghost predicate PatternAt(s: string, obj: string, name: string, field: string, m: Match)
  {
    && IsAt(s, m.objAt, obj)
    && m.objAt + |obj| <= m.nameAt && IsAt(s, m.nameAt, name)
    && m.nameAt + |name| <= m.lineAt && LineStart(s, m.lineAt)
    && m.lineAt <= m.tokenAt < m.delimAt < |s|
    && (forall q :: m.lineAt <= q < m.tokenAt ==> s[q] == ' ')
    && (forall q :: m.tokenAt <= q < m.delimAt ==> !IsDelim(s[q]))
    && IsDelim(s[m.delimAt])
    && SpacedComment(s, m.delimAt + 1, m.endAt, field)
  }

  /** The match `re.search` would find from `pos`: the first object marker,
      the first name marker after it, the first field line after that. */
  function MatchFrom(s: string, pos: nat, obj: string, name: string, field: string): (r: Option<Match>)
    ensures r.Some? ==> pos <= r.value.objAt <= r.value.tokenAt < r.value.delimAt < r.value.endAt <= |s|
  {
    match Find(s, obj, pos)
    case None => None
    case Some(i) =>
      match Find(s, name, i + |obj|)
      case None => None
      case Some(j) =>
        match FindFieldLine(s, j + |name|, field)
        case None => None
        case Some(l) =>
          var fl := FieldLineAt(s, l, field).value;
          Some(Match(i, j, l, fl.tokenAt, fl.delimAt, fl.endAt))
  }

  /** Soundness: the match found is a match of the pattern, its object
      marker is the leftmost one at or after `pos`, its name marker the first
      after that, and its field line the first after that. */
  lemma MatchFromSound(s: string, pos: nat, obj: string, name: string, field: string)
    requires MatchFrom(s, pos, obj, name, field).Some?
    ensures PatternAt(s, obj, name, field, MatchFrom(s, pos, obj, name, field).value)
    ensures var m := MatchFrom(s, pos, obj, name, field).value;
            && (forall q :: pos <= q < m.objAt ==> !IsAt(s, q, obj))
            && (forall q :: m.objAt + |obj| <= q < m.nameAt ==> !IsAt(s, q, name))
            && (forall q :: m.nameAt + |name| <= q < m.lineAt ==> FieldLineAt(s, q, field).None?)
  {
    var m := MatchFrom(s, pos, obj, name, field).value;
    MatchFromParts(s, pos, obj, name, field, m);
    FieldLineAtSound(s, m.lineAt, field);
  }

  /** The match `MatchFrom` assembles from the three searches. */
  lemma MatchFromOf(s: string, pos: nat, obj: string, name: string, field: string, i: nat, j: nat, l: nat, fl: FieldLine)
    requires Find(s, obj, pos) == Some(i) && Find(s, name, i + |obj|) == Some(j)
    requires FindFieldLine(s, j + |name|, field) == Some(l) && FieldLineAt(s, l, field) == Some(fl)
    ensures MatchFrom(s, pos, obj, name, field) == Some(Match(i, j, l, fl.tokenAt, fl.delimAt, fl.endAt))
  {
  }

  /** The three searches a match found by `MatchFrom` comes from. */
  lemma MatchFromInv(s: string, pos: nat, obj: string, name: string, field: string, m: Match)
    requires MatchFrom(s, pos, obj, name, field) == Some(m)
    ensures Find(s, obj, pos) == Some(m.objAt)
    ensures Find(s, name, m.objAt + |obj|) == Some(m.nameAt)
    ensures FindFieldLine(s, m.nameAt + |name|, field) == Some(m.lineAt)
    ensures FieldLineAt(s, m.lineAt, field) == Some(FieldLine(m.tokenAt, m.delimAt, m.endAt))
  {
  }

  /** `re.sub` from position `pos` on: every match is replaced by the text
      before the token, then `v`, then the delimiter and comment; the search
      resumes where the match ended. */
  function ReSubFrom(s: string, pos: nat, obj: string, name: string, field: string, v: string): string
    requires pos <= |s|
    decreases |s| - pos
  {
    match MatchFrom(s, pos, obj, name, field)
    case None => s[pos..]
    case Some(m) => s[pos..m.tokenAt] + v + s[m.delimAt..m.endAt] + ReSubFrom(s, m.endAt, obj, name, field, v)
  }

  /** `re_substitute(s, obj, name, field, value)` with `v == str(value)`. */
  function ReSubstitute(s: string, obj: string, name: string, field: string, v: string): string
  {
    ReSubFrom(s, 0, obj, name, field, v)
  }

  /** Without a match the text is unchanged; with one, the text before the
      first token is kept, the token becomes `v`, and the delimiter and
      comment follow it. */
  lemma ReSubstituteShape(s: string, obj: string, name: string, field: string, v: string)
    ensures MatchFrom(s, 0, obj, name, field).None? ==> ReSubstitute(s, obj, name, field, v) == s
    ensures MatchFrom(s, 0, obj, name, field).Some? ==>
              var r := ReSubstitute(s, obj, name, field, v);
              var m := MatchFrom(s, 0, obj, name, field).value;
              && |r| >= m.tokenAt + |v| + (m.endAt - m.delimAt)
              && r[..m.tokenAt] == s[..m.tokenAt]
              && r[m.tokenAt..m.tokenAt + |v|] == v
              && r[m.tokenAt + |v|..m.tokenAt + |v| + (m.endAt - m.delimAt)] == s[m.delimAt..m.endAt]
  {
  }

  /** After the first match, `re.sub` goes on from where the match ended:
      the rest of the result is the substitution resumed there, which is
      the remaining text itself when no further match exists. */
  lemma ReSubstituteRest(s: string, obj: string, name: string, field: string, v: string)
    requires MatchFrom(s, 0, obj, name, field).Some?
    ensures var r := ReSubstitute(s, obj, name, field, v);
            var m := MatchFrom(s, 0, obj, name, field).value;
            && |r| >= m.tokenAt + |v| + (m.endAt - m.delimAt)
            && r[m.tokenAt + |v| + (m.endAt - m.delimAt)..] == ReSubFrom(s, m.endAt, obj, name, field, v)
            && (MatchFrom(s, m.endAt, obj, name, field).None? ==>
                  r[m.tokenAt + |v| + (m.endAt - m.delimAt)..] == s[m.endAt..])
  {
  }

  /** The text of the value token the substitution would replace first. */
  function Locate(s: string, obj: string, name: string, field: string): (r: Option<string>)
    ensures r.Some? ==> r.value != [] && forall q :: 0 <= q < |r.value| ==> !IsDelim(r.value[q])
  {
    match MatchFrom(s, 0, obj, name, field)
    case None => None
    case Some(m) =>
      MatchFromParts(s, 0, obj, name, field, m);
      FieldLineAtSound(s, m.lineAt, field);
      Some(s[m.tokenAt..m.delimAt])
  }

  /** A value text that reads back as a whole token: not empty, no
      delimiter, and not starting with a space (which ` *` would swallow). */
  predicate IsToken(v: string)
  {
    v != [] && v[0] != ' ' && forall q :: 0 <= q < |v| ==> !IsDelim(v[q])
  }

  // ---------------------------------------------------------------------
  // Characterisations: each search is determined by its "first" property.

  lemma {:induction false} FindIs(s: string, m: string, from: nat, p: nat)
    requires from <= p && IsAt(s, p, m)
    requires forall q :: from <= q < p ==> !IsAt(s, q, m)
    ensures Find(s, m, from) == Some(p)
    decreases p - from
  {
    if from < p {
      assert !IsAt(s, from, m);
      FindIs(s, m, from + 1, p);
    }
  }

  /** An occurrence at `p` makes the search from `from` succeed no later. */
  lemma {:induction false} FindNoLater(s: string, m: string, from: nat, p: nat)
    requires from <= p && IsAt(s, p, m)
    ensures Find(s, m, from).Some? && Find(s, m, from).value <= p
    decreases p - from
  {
    if from < p && !IsAt(s, from, m) {
      FindNoLater(s, m, from + 1, p);
    }
  }

  /** A field line at `l` makes the search from `from` succeed no later. */
  lemma FindFieldLineNoLater(s: string, from: nat, field: string, l: nat)
    requires from <= l && FieldLineAt(s, l, field).Some?
    ensures FindFieldLine(s, from, field).Some? && FindFieldLine(s, from, field).value <= l
  {
  }

  /** No delimiter before the one `NextDelim` finds. */
  lemma {:induction false} NextDelimFirst(s: string, from: nat)
    ensures NextDelim(s, from).Some? ==> forall q :: from <= q < NextDelim(s, from).value ==> !IsDelim(s[q])
    decreases |s| - from
  {
    if from < |s| && !IsDelim(s[from]) { NextDelimFirst(s, from + 1); }
  }

  /** The run `SpaceRun` measures is all spaces. */
  lemma {:induction false} SpaceRunSpaces(s: string, from: nat)
    requires from <= |s|
    ensures forall q :: from <= q < from + SpaceRun(s, from) ==> s[q] == ' '
    decreases |s| - from
  {
    if from < |s| && s[from] == ' ' { SpaceRunSpaces(s, from + 1); }
  }

  lemma {:induction false} NextDelimIs(s: string, from: nat, c: nat)
    requires from <= c < |s| && IsDelim(s[c])
    requires forall q :: from <= q < c ==> !IsDelim(s[q])
    ensures NextDelim(s, from) == Some(c)
    decreases c - from
  {
    if from < c { NextDelimIs(s, from + 1, c); }
  }

  lemma {:induction false} SpaceRunIs(s: string, from: nat, n: nat)
    requires from + n <= |s|
    requires forall q :: from <= q < from + n ==> s[q] == ' '
    requires from + n == |s| || s[from + n] != ' '
    ensures SpaceRun(s, from) == n
    decreases n
  {
    if n > 0 { SpaceRunIs(s, from + 1, n - 1); }
  }

  lemma FindFieldLineIs(s: string, from: nat, field: string, l: nat)
    requires from <= l && FieldLineAt(s, l, field).Some?
    requires forall q :: from <= q < l ==> FieldLineAt(s, q, field).None?
    ensures FindFieldLine(s, from, field) == Some(l)
  {
  }

  /** `r` and `s` agree below position `k`. */
  ghost predicate SameBelow(r: string, s: string, k: nat)
  {
    k <= |r| && k <= |s| && forall x {:trigger r[x]} :: 0 <= x < k ==> r[x] == s[x]
  }

  /** `r[a..a + n]` and `s[b..b + n]` are the same text. */
  ghost predicate SameShifted(r: string, a: nat, s: string, b: nat, n: nat)
  {
    a + n <= |r| && b + n <= |s| && forall x {:trigger r[x]} :: a <= x < a + n ==> r[x] == s[x - a + b]
  }

  /** `p` is the first occurrence of `m` at or after `from`, stated
      without the search. */
  ghost predicate FirstAt(s: string, m: string, from: nat, p: nat)
  {
    from <= p && IsAt(s, p, m) && forall q :: from <= q < p ==> !IsAt(s, q, m)
  }

  /** `l` is the first line start at or after `from` where `FieldLineAt`
      succeeds, stated without the search. */
  ghost predicate FirstFieldLine(s: string, from: nat, l: nat, field: string)
  {
    from <= l && FieldLineAt(s, l, field).Some?
    && forall q :: from <= q < l ==> FieldLineAt(s, q, field).None?
  }

  /** The first occurrence of a marker is kept by any text that agrees with
      `s` up to the end of that occurrence. */
  lemma {:induction false} FindAgree(s: string, r: string, m: string, from: nat, p: nat, k: nat)
    requires FirstAt(s, m, from, p)
    requires p + |m| <= k && SameBelow(r, s, k)
    ensures FirstAt(r, m, from, p)
  {
    assert r[p..p + |m|] == s[p..p + |m|];
    forall q | from <= q < p
      ensures !IsAt(r, q, m)
    {
      if IsAt(r, q, m) {
        assert r[q..q + |m|] == s[q..q + |m|];
        assert IsAt(s, q, m);
        assert false;
      }
    }
  }

  /** Any split of a field line that fits the pattern makes `FieldLineAt`
      succeed, with the same delimiter and comment end. */
  lemma {:induction false} FieldLineAtComplete(s: string, l: nat, field: string, t: nat, c: nat, e: nat)
    requires LineStart(s, l) && l <= t < c < |s|
    requires forall q :: l <= q < t ==> s[q] == ' '
    requires forall q :: t <= q < c ==> !IsDelim(s[q])
    requires IsDelim(s[c])
    requires SpacedComment(s, c + 1, e, field)
    ensures FieldLineAt(s, l, field).Some?
    ensures FieldLineAt(s, l, field).value.delimAt == c
    ensures FieldLineAt(s, l, field).value.endAt == e
  {
    NextDelimIs(s, l, c);
    var k := e - |CommentMarker + field|;
    assert s[k + 0] == (CommentMarker + field)[0] == '!';
    SpaceRunIs(s, c + 1, k - (c + 1));
    assert CommentEnd(s, c, field) == Some(e);
  }

  /** Completeness: whenever the pattern matches somewhere at or after `pos`,
      the search finds a match, and it starts no later. */
  lemma {:induction false} MatchFromComplete(s: string, pos: nat, obj: string, name: string, field: string, m: Match)
    requires pos <= m.objAt && PatternAt(s, obj, name, field, m)
    ensures MatchFrom(s, pos, obj, name, field).Some?
    ensures MatchFrom(s, pos, obj, name, field).value.objAt <= m.objAt
  {
    FindNoLater(s, obj, pos, m.objAt);
    var i := Find(s, obj, pos).value;
    FindNoLater(s, name, i + |obj|, m.nameAt);
    var j := Find(s, name, i + |obj|).value;
    FieldLineAtComplete(s, m.lineAt, field, m.tokenAt, m.delimAt, m.endAt);
    FindFieldLineNoLater(s, j + |name|, field, m.lineAt);
    var l := FindFieldLine(s, j + |name|, field).value;
    MatchFromOf(s, pos, obj, name, field, i, j, l, FieldLineAt(s, l, field).value);
  }

  lemma {:induction false} SpacedCommentAgree(r: string, s: string, from: nat, e: nat, field: string, k: nat)
    requires SameBelow(r, s, k) && e <= k
    requires SpacedComment(r, from, e, field)
    ensures SpacedComment(s, from, e, field)
  {
    var n := |CommentMarker + field|;
    var p := e - n;
    forall q | from <= q < e ensures s[q] == r[q] {
      assert r[q] == s[q];
    }
    assert s[p..p + n] == r[p..p + n];
  }

  lemma {:induction false} SpacedCommentShift(r: string, a: nat, s: string, b: nat, n: nat, from: nat, e: nat, field: string)
    requires SameShifted(r, a, s, b, n)
    requires b <= from && e <= b + n
    requires SpacedComment(s, from, e, field)
    ensures SpacedComment(r, from - b + a, e - b + a, field)
  {
    var len := |CommentMarker + field|;
    var p := e - len;
    var pr := p - b + a;
    assert forall x :: from - b + a <= x < pr ==> r[x] == s[x - a + b];
    assert r[pr..pr + len] == s[p..p + len];
  }

  /** A field comment that starts on a line before the line feed at `l - 1`
      ends before it, because the comment holds no line feed. */
  lemma CommentBeforeLineEnd(r: string, c: nat, e: nat, field: string, l: nat)
    requires SpacedComment(r, c + 1, e, field)
    requires 0 < l <= |r| && r[l - 1] == '\n' && c < l - 1
    requires '\n' !in field
    ensures e <= l - 1
  {
    var k := e - |CommentMarker + field|;
    forall x | c + 1 <= x < e ensures r[x] != '\n' {
      if x >= k {
        var i := x - k;
        assert r[k + i] == (CommentMarker + field)[i];
        if i >= |CommentMarker| {
          assert (CommentMarker + field)[i] == field[i - |CommentMarker|];
        }
      }
    }
  }

  /** A line whose field ends before the first field line `l` of `s` and
      matches in `r` also matches in `s`. */
  lemma {:induction false} EarlierLineAgree(s: string, r: string, field: string, l: nat, q: nat, f: FieldLine)
    requires SameBelow(r, s, l) && 0 < l && r[l - 1] == '\n' && q < l
    requires '\n' !in field
    requires FieldLineAt(r, q, field) == Some(f) && f.delimAt < l
    ensures FieldLineAt(s, q, field).Some?
  {
    FieldLineAtSound(r, q, field);
    assert r[f.delimAt] != '\n';
    CommentBeforeLineEnd(r, f.delimAt, f.endAt, field, l);
    SpacedCommentAgree(r, s, f.delimAt + 1, f.endAt, field, l);
    assert LineStart(s, q);
    forall x | q <= x <= f.delimAt ensures s[x] == r[x] {
      assert r[x] == s[x];
    }
    FieldLineAtComplete(s, q, field, f.tokenAt, f.delimAt, f.endAt);
  }

  /** A line start before the field line `l` with no delimiter of its own
      before `l` shares the field of `l`, so it matches too. */
  lemma {:induction false} SharedDelimLine(s: string, r: string, field: string, l: nat, q: nat, f: FieldLine, fl: FieldLine)
    requires SameBelow(r, s, l) && q < l
    requires FieldLineAt(r, q, field) == Some(f) && l <= f.delimAt
    requires FieldLineAt(s, l, field) == Some(fl)
    ensures FieldLineAt(s, q, field).Some?
  {
    FieldLineAtSound(r, q, field);
    FieldLineAtSound(s, l, field);
    assert LineStart(s, q);
    assert forall x :: q <= x < l ==> !IsDelim(s[x]) by {
      forall x | q <= x < l ensures !IsDelim(s[x]) {
        assert r[x] == s[x];
      }
    }
    FieldLineAtComplete(s, q, field, q, fl.delimAt, fl.endAt);
  }

  /** No line start between `from` and the first field line `l` of `s`
      becomes a field line once the token of `l` is replaced: such a line
      either ends its own field before `l`, where both texts agree, or it
      shares the field of `l` and would already have matched in `s`. */
  lemma {:induction false} NoEarlierFieldLine(s: string, r: string, field: string, from: nat, l: nat, fl: FieldLine, q: nat)
    requires FirstFieldLine(s, from, l, field) && FieldLineAt(s, l, field) == Some(fl)
    requires '\n' !in field
    requires SameBelow(r, s, fl.tokenAt)
    requires from <= q < l
    ensures FieldLineAt(r, q, field).None?
  {
    if FieldLineAt(r, q, field).Some? {
      var f := FieldLineAt(r, q, field).value;
      assert SameBelow(r, s, l);
      if f.delimAt < l {
        assert r[l - 1] == s[l - 1] == '\n';
        EarlierLineAgree(s, r, field, l, q, f);
      } else {
        SharedDelimLine(s, r, field, l, q, f, fl);
      }
      assert false;
    }
  }

  /** A field line whose token does not start with a space is found
      exactly: token, delimiter and comment end. */
  lemma {:induction false} FieldLineAtExact(s: string, l: nat, field: string, f: FieldLine)
    requires FieldLineShape(s, l, f, field) && s[f.tokenAt] != ' '
    ensures FieldLineAt(s, l, field) == Some(f)
  {
    FieldLineAtComplete(s, l, field, f.tokenAt, f.delimAt, f.endAt);
    SpaceRunIs(s, l, f.tokenAt - l);
  }

  /** Replacing the token of a field line by a token `v` leaves a field
      line whose token is `v`. */
  lemma {:induction false} ReplacedShape(s: string, r: string, field: string, l: nat, fl: FieldLine, v: string)
    requires FieldLineShape(s, l, fl, field)
    requires IsToken(v)
    requires SameBelow(r, s, fl.tokenAt)
    requires SameShifted(r, fl.tokenAt, v, 0, |v|)
    requires SameShifted(r, fl.tokenAt + |v|, s, fl.delimAt, fl.endAt - fl.delimAt)
    ensures var cr := fl.tokenAt + |v|;
            FieldLineShape(r, l, FieldLine(fl.tokenAt, cr, cr + (fl.endAt - fl.delimAt)), field)
    ensures fl.tokenAt < |r| && r[fl.tokenAt] != ' '
  {
    ReplacedLead(s, r, l, fl.tokenAt, v);
    ReplacedTail(s, r, field, fl.tokenAt + |v|, fl.delimAt, fl.endAt);
  }

  /** The spaces before the token and the new token `v` itself. */
  lemma {:induction false} ReplacedLead(s: string, r: string, l: nat, t: nat, v: string)
    requires SameBelow(r, s, t)
    requires LineStart(s, l) && l <= t
    requires forall q :: l <= q < t ==> s[q] == ' '
    requires IsToken(v)
    requires SameShifted(r, t, v, 0, |v|)
    ensures LineStart(r, l) && t < |r| && r[t] != ' '
    ensures forall q :: l <= q < t ==> r[q] == ' '
    ensures forall q :: t <= q < t + |v| ==> !IsDelim(r[q])
  {
    assert l > 0 ==> r[l - 1] == s[l - 1];
    assert r[t] == v[0];
    forall q | l <= q < t ensures r[q] == ' ' {
      assert r[q] == s[q];
    }
    forall x | t <= x < t + |v| ensures !IsDelim(r[x]) {
      assert r[x] == v[x - t];
    }
  }

  /** The delimiter and the field comment, moved from `c` to `cr`. */
  lemma {:induction false} ReplacedTail(s: string, r: string, field: string, cr: nat, c: nat, e: nat)
    requires c < e <= |s| && IsDelim(s[c])
    requires SpacedComment(s, c + 1, e, field)
    requires SameShifted(r, cr, s, c, e - c)
    ensures cr < |r| && IsDelim(r[cr])
    ensures SpacedComment(r, cr + 1, cr + (e - c), field)
  {
    assert r[cr] == s[c];
    SpacedCommentShift(r, cr, s, c, e - c, c + 1, e, field);
  }

  /** The field line `l` itself still matches once its token is replaced
      by a token `v`, and its token is now exactly `v`. */
  lemma {:induction false} FieldLineReplaced(s: string, r: string, field: string, l: nat, fl: FieldLine, v: string)
    requires FieldLineAt(s, l, field) == Some(fl)
    requires IsToken(v)
    requires SameBelow(r, s, fl.tokenAt)
    requires SameShifted(r, fl.tokenAt, v, 0, |v|)
    requires SameShifted(r, fl.tokenAt + |v|, s, fl.delimAt, fl.endAt - fl.delimAt)
    ensures FieldLineAt(r, l, field).Some?
    ensures FieldLineAt(r, l, field).value.tokenAt == fl.tokenAt
    ensures FieldLineAt(r, l, field).value.delimAt == fl.tokenAt + |v|
  {
    var cr := fl.tokenAt + |v|;
    FieldLineAtSound(s, l, field);
    ReplacedShape(s, r, field, l, fl, v);
    FieldLineAtExact(r, l, field, FieldLine(fl.tokenAt, cr, cr + (fl.endAt - fl.delimAt)));
  }

  /** Replacing the token of the first field line after `from` by a token
      `v` keeps that line the first field line after `from`. */
  lemma {:induction false} FieldLineKept(s: string, r: string, field: string, from: nat, l: nat, fl: FieldLine)
    requires FirstFieldLine(s, from, l, field) && FieldLineAt(s, l, field) == Some(fl)
    requires '\n' !in field
    requires SameBelow(r, s, fl.tokenAt)
    requires FieldLineAt(r, l, field).Some?
    ensures FirstFieldLine(r, from, l, field)
  {
    forall q | from <= q < l
      ensures FieldLineAt(r, q, field).None?
    {
      NoEarlierFieldLine(s, r, field, from, l, fl, q);
    }
  }

  /** Slice equalities as agreement facts. */
  lemma {:induction false} SlicesAgree(s: string, r: string, v: string, t: nat, c: nat, e: nat)
    requires t <= c <= e <= |s| && |r| >= t + |v| + (e - c)
    requires r[..t] == s[..t]
    requires r[t..t + |v|] == v
    requires r[t + |v|..t + |v| + (e - c)] == s[c..e]
    ensures SameBelow(r, s, t)
    ensures SameShifted(r, t, v, 0, |v|)
    ensures SameShifted(r, t + |v|, s, c, e - c)
  {
    forall x | 0 <= x < t ensures r[x] == s[x] {
      assert r[..t][x] == s[..t][x];
    }
    forall x | t <= x < t + |v| ensures r[x] == v[x - t] {
      assert r[t..t + |v|][x - t] == v[x - t];
    }
    forall x | t + |v| <= x < t + |v| + (e - c) ensures r[x] == s[x - (t + |v|) + c] {
      assert r[t + |v|..t + |v| + (e - c)][x - (t + |v|)] == s[c..e][x - (t + |v|)];
    }
  }

  /** The searches a match found by `MatchFrom` is made of. */
  lemma {:induction false} MatchFromParts(s: string, pos: nat, obj: string, name: string, field: string, m: Match)
    requires MatchFrom(s, pos, obj, name, field) == Some(m)
    ensures FirstAt(s, obj, pos, m.objAt)
    ensures FirstAt(s, name, m.objAt + |obj|, m.nameAt)
    ensures FirstFieldLine(s, m.nameAt + |name|, m.lineAt, field)
    ensures FieldLineAt(s, m.lineAt, field) == Some(FieldLine(m.tokenAt, m.delimAt, m.endAt))
  {
    MatchFromInv(s, pos, obj, name, field, m);
  }

  /** `Locate` from the three searches it is made of. */
  lemma {:induction false} LocateIs(s: string, obj: string, name: string, field: string, i: nat, j: nat, l: nat, fl: FieldLine)
    requires FirstAt(s, obj, 0, i) && FirstAt(s, name, i + |obj|, j)
    requires FirstFieldLine(s, j + |name|, l, field) && FieldLineAt(s, l, field) == Some(fl)
    ensures Locate(s, obj, name, field) == Some(s[fl.tokenAt..fl.delimAt])
  {
    MatchFromIs(s, obj, name, field, i, j, l, fl);
    LocateOf(s, obj, name, field, Match(i, j, l, fl.tokenAt, fl.delimAt, fl.endAt));
  }

  /** The match from the start, from the three searches it is made of. */
  lemma {:induction false} MatchFromIs(s: string, obj: string, name: string, field: string, i: nat, j: nat, l: nat, fl: FieldLine)
    requires FirstAt(s, obj, 0, i) && FirstAt(s, name, i + |obj|, j)
    requires FirstFieldLine(s, j + |name|, l, field) && FieldLineAt(s, l, field) == Some(fl)
    ensures MatchFrom(s, 0, obj, name, field) == Some(Match(i, j, l, fl.tokenAt, fl.delimAt, fl.endAt))
  {
    FindIs(s, obj, 0, i);
    FindIs(s, name, i + |obj|, j);
    FindFieldLineIs(s, j + |name|, field, l);
    MatchFromOf(s, 0, obj, name, field, i, j, l, fl);
  }

  /** `Locate` reads the token of the match from the start. */
  lemma LocateOf(s: string, obj: string, name: string, field: string, m: Match)
    requires MatchFrom(s, 0, obj, name, field) == Some(m)
    ensures Locate(s, obj, name, field) == Some(s[m.tokenAt..m.delimAt])
  {
  }

  /** In a text shaped like a substitution result, the first field line
      after `from` is still `l`, and its token is now `v`. */
  lemma {:induction false} FieldLineShaped(s: string, r: string, field: string, v: string, from: nat, l: nat, fl: FieldLine)
    requires FirstFieldLine(s, from, l, field) && FieldLineAt(s, l, field) == Some(fl)
    requires IsToken(v) && '\n' !in field
    requires SameBelow(r, s, fl.tokenAt)
    requires SameShifted(r, fl.tokenAt, v, 0, |v|)
    requires SameShifted(r, fl.tokenAt + |v|, s, fl.delimAt, fl.endAt - fl.delimAt)
    ensures FirstFieldLine(r, from, l, field)
    ensures FieldLineAt(r, l, field).Some?
    ensures FieldLineAt(r, l, field).value.tokenAt == fl.tokenAt
    ensures FieldLineAt(r, l, field).value.delimAt == fl.tokenAt + |v|
  {
    FieldLineReplaced(s, r, field, l, fl, v);
    FieldLineKept(s, r, field, from, l, fl);
  }

  /** `Locate` reads `v` when the three searches end at a field line whose
      token is `v`. */
  lemma {:induction false} LocateReads(r: string, obj: string, name: string, field: string, v: string,
                    i: nat, j: nat, l: nat, t: nat)
    requires FirstAt(r, obj, 0, i) && FirstAt(r, name, i + |obj|, j)
    requires FirstFieldLine(r, j + |name|, l, field)
    requires FieldLineAt(r, l, field).value.tokenAt == t
    requires FieldLineAt(r, l, field).value.delimAt == t + |v|
    requires SameShifted(r, t, v, 0, |v|)
    ensures Locate(r, obj, name, field) == Some(v)
  {
    var fl := FieldLineAt(r, l, field).value;
    LocateIs(r, obj, name, field, i, j, l, fl);
    assert r[fl.tokenAt..fl.delimAt] == v;
  }

  /** Both marker searches give the same positions in a text that agrees
      with `s` up to `t`. */
  lemma {:induction false} MarkersKept(s: string, r: string, obj: string, name: string, i: nat, j: nat, t: nat)
    requires FirstAt(s, obj, 0, i) && FirstAt(s, name, i + |obj|, j)
    requires j + |name| <= t && SameBelow(r, s, t)
    ensures FirstAt(r, obj, 0, i) && FirstAt(r, name, i + |obj|, j)
  {
    FindAgree(s, r, obj, 0, i, t);
    FindAgree(s, r, name, i + |obj|, j, t);
  }

  /** Locating in a text shaped like a substitution result reads `v`. */
  lemma {:induction false} LocateShaped(s: string, r: string, obj: string, name: string, field: string, v: string,
                     i: nat, j: nat, l: nat, fl: FieldLine)
    requires FirstAt(s, obj, 0, i) && FirstAt(s, name, i + |obj|, j)
    requires FirstFieldLine(s, j + |name|, l, field) && FieldLineAt(s, l, field) == Some(fl)
    requires IsToken(v) && '\n' !in field
    requires SameBelow(r, s, fl.tokenAt)
    requires SameShifted(r, fl.tokenAt, v, 0, |v|)
    requires SameShifted(r, fl.tokenAt + |v|, s, fl.delimAt, fl.endAt - fl.delimAt)
    ensures Locate(r, obj, name, field) == Some(v)
  {
    var t := fl.tokenAt;
    assert j + |name| <= l <= t;
    MarkersKept(s, r, obj, name, i, j, t);
    FieldLineShaped(s, r, field, v, j + |name|, l, fl);
    LocateReads(r, obj, name, field, v, i, j, l, t);
  }

  /** Round trip: after the substitution, locating the same field reads back
      exactly the substituted text. */
  lemma {:induction false} LocateAfterSubstitute(s: string, obj: string, name: string, field: string, v: string)
    requires Locate(s, obj, name, field).Some?
    requires IsToken(v) && '\n' !in field
    ensures Locate(ReSubstitute(s, obj, name, field, v), obj, name, field) == Some(v)
  {
    var m := MatchFrom(s, 0, obj, name, field).value;
    ReSubstituteShape(s, obj, name, field, v);
    MatchFromParts(s, 0, obj, name, field, m);
    LocateAfterReplace(s, ReSubstitute(s, obj, name, field, v), obj, name, field, v,
                       m.objAt, m.nameAt, m.lineAt, FieldLine(m.tokenAt, m.delimAt, m.endAt));
  }

  /** Locating in a text whose first match has had its token replaced by
      `v` reads `v`. */
  lemma {:induction false} LocateAfterReplace(s: string, r: string, obj: string, name: string, field: string, v: string,
                           i: nat, j: nat, l: nat, fl: FieldLine)
    requires FirstAt(s, obj, 0, i) && FirstAt(s, name, i + |obj|, j)
    requires FirstFieldLine(s, j + |name|, l, field) && FieldLineAt(s, l, field) == Some(fl)
    requires IsToken(v) && '\n' !in field
    requires |r| >= fl.tokenAt + |v| + (fl.endAt - fl.delimAt)
    requires r[..fl.tokenAt] == s[..fl.tokenAt]
    requires r[fl.tokenAt..fl.tokenAt + |v|] == v
    requires r[fl.tokenAt + |v|..fl.tokenAt + |v| + (fl.endAt - fl.delimAt)] == s[fl.delimAt..fl.endAt]
    ensures Locate(r, obj, name, field) == Some(v)
  {
    FieldLineAtSound(s, l, field);
    SlicesAgree(s, r, v, fl.tokenAt, fl.delimAt, fl.endAt);
    LocateShaped(s, r, obj, name, field, v, i, j, l, fl);
  }
}
