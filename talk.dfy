/**
 * The talk matching of `add_user_talk` in main.py: the talk page's text is
 * split on the literal "(IST)" that ends every signed comment, and each user
 * gets the segments that mention their name, or None.
 */
module Talk {
  import opened Seqs

  /** The delimiter the talk text is split on. */
  const IstDelimiter: string := "(IST)"

  /** `sep` occurs in `s` starting at index `i`. */
  predicate OccursAt(s: string, sep: string, i: int) {
    0 <= i && i + |sep| <= |s| && s[i..i + |sep|] == sep
  }

  /** Python's `needle in hay`; an empty needle is in every string. */
  predicate Contains(hay: string, needle: string) {
    exists i :: 0 <= i <= |hay| && OccursAt(hay, needle, i)
  }

  /** The first occurrence of `sep` in `s` at or after `from` (Python's `s.find(sep, from)`). */
  function IndexOf(s: string, sep: string, from: nat): (r: Option<nat>)
    requires |sep| > 0 && from <= |s|
    ensures r.Some? ==> from <= r.value && OccursAt(s, sep, r.value)
    ensures r.Some? ==> forall j :: from <= j < r.value ==> !OccursAt(s, sep, j)
    ensures r.None? ==> forall j :: from <= j <= |s| ==> !OccursAt(s, sep, j)
    decreases |s| - from
  {
    if from + |sep| > |s| then None
    else if s[from..from + |sep|] == sep then Some(from)
    else IndexOf(s, sep, from + 1)
  }

  /** Python's `s.split(sep)` for a non-empty separator. */
  function Split(s: string, sep: string): (parts: seq<string>)
    requires |sep| > 0
    ensures |parts| >= 1
    ensures forall p :: p in parts ==> !Contains(p, sep)
    decreases |s|
  {
    match IndexOf(s, sep, 0)
    case None => [s]
    case Some(i) =>
      var head := s[..i];
      assert !Contains(head, sep) by {
        if Contains(head, sep) {
          var j :| 0 <= j <= |head| && OccursAt(head, sep, j);
          assert head[j..j + |sep|] == s[j..j + |sep|];
          assert OccursAt(s, sep, j);
        }
      }
      [head] + Split(s[i + |sep|..], sep)
  }

  /** `sep.join(parts)`. */
  function Join(parts: seq<string>, sep: string): string
    requires |parts| >= 1
  {
    if |parts| == 1 then parts[0] else parts[0] + sep + Join(parts[1..], sep)
  }

  /** Joining the segments again with the delimiter gives back the talk text. */
  lemma {:induction false} JoinSplit(s: string, sep: string)
    requires |sep| > 0
    ensures Join(Split(s, sep), sep) == s
    decreases |s|
  {
    match IndexOf(s, sep, 0)
    case None =>
    case Some(i) =>
      var rest := s[i + |sep|..];
      var tail := Split(rest, sep);
      JoinSplit(rest, sep);
      assert Split(s, sep) == [s[..i]] + tail;
      assert ([s[..i]] + tail)[1..] == tail;
      assert Join([s[..i]] + tail, sep) == s[..i] + sep + Join(tail, sep);
      assert s[i..i + |sep|] == sep;
      assert s == s[..i] + s[i..i + |sep|] + rest;
  }

  /** An occurrence with no earlier character equal to the separator's first is the first one. */
  lemma FirstOccurrence(s: string, sep: string, i: nat)
    requires |sep| > 0 && OccursAt(s, sep, i)
    requires forall j :: 0 <= j < i ==> s[j] != sep[0]
    ensures IndexOf(s, sep, 0) == Some(i)
  {
    forall j | 0 <= j < i ensures !OccursAt(s, sep, j) {
      assert j + |sep| <= |s| ==> s[j..j + |sep|][0] == s[j];
    }
  }

  /** A string without the needle's first character does not contain the needle. */
  lemma AbsentByFirstChar(hay: string, needle: string)
    requires |needle| > 0
    requires forall j :: 0 <= j < |hay| ==> hay[j] != needle[0]
    ensures !Contains(hay, needle)
  {
    forall i | 0 <= i <= |hay| ensures !OccursAt(hay, needle, i) {
      assert i + |needle| <= |hay| ==> hay[i..i + |needle|][0] == hay[i];
    }
  }

  /** The segments that contain `user`, in order: the `filter` of `add_user_talk`. */
  function Mentioning(segments: seq<string>, user: string): seq<string> {
    if segments == [] then []
    else
      var n := |segments| - 1;
      Mentioning(segments[..n], user) + (if Contains(segments[n], user) then [segments[n]] else [])
  }

  /** Every segment the talk filter keeps mentions the user. */
  lemma {:induction false} MentionsOnly(segments: seq<string>, user: string)
    ensures forall s :: s in Mentioning(segments, user) ==> Contains(s, user)
    decreases |segments|
  {
    if segments != [] {
      MentionsOnly(segments[..|segments| - 1], user);
    }
  }

  function MentionFlags(segments: seq<string>, user: string): (flags: seq<bool>)
    ensures |flags| == |segments|
    ensures forall i :: 0 <= i < |segments| ==> flags[i] == Contains(segments[i], user)
  {
    seq(|segments|, i requires 0 <= i < |segments| => Contains(segments[i], user))
  }

  /**
   * The filter keeps exactly the segments that mention the user, in text
   * order: it is the selection of the segments at the indices where the
   * user's name occurs.
   */
  lemma {:induction false} MentioningSelects(segments: seq<string>, user: string)
    ensures Mentioning(segments, user) == Select(segments, Positions(MentionFlags(segments, user)))
    decreases |segments|
  {
    if segments != [] {
      var n := |segments| - 1;
      var init := segments[..n];
      MentioningSelects(init, user);
      assert MentionFlags(segments, user)[..n] == MentionFlags(init, user);
      var ps := Positions(MentionFlags(init, user));
      assert Select(segments, ps) == Select(init, ps);
      if Contains(segments[n], user) {
        assert Positions(MentionFlags(segments, user)) == ps + [n];
        assert Select(segments, ps + [n]) == Select(segments, ps) + [segments[n]];
      } else {
        assert Positions(MentionFlags(segments, user)) == ps;
      }
    }
  }

  /**
   * A user's `user_talk`: None when the talk page is absent (`talk` is None)
   * or when no segment mentions the user; otherwise the non-empty list of
   * the segments that do.
   */
  function UserTalk(talk: Option<string>, user: string): (r: Option<seq<string>>)
    ensures r.None? <==>
            talk.None? || forall p :: p in Split(talk.value, IstDelimiter) ==> !Contains(p, user)
    ensures r.Some? ==> talk.Some? && r.value != [] &&
                        r.value == Mentioning(Split(talk.value, IstDelimiter), user)
  {
    match talk
    case None => None
    case Some(text) =>
      var segments := Split(text, IstDelimiter);
      var matched := Mentioning(segments, user);
      MentioningSelects(segments, user);
      assert matched == [] <==> forall p :: p in segments ==> !Contains(p, user) by {
        if matched == [] {
          forall p | p in segments ensures !Contains(p, user) {
            var i :| 0 <= i < |segments| && segments[i] == p;
            assert i !in Positions(MentionFlags(segments, user));
          }
        } else {
          var p0 := Positions(MentionFlags(segments, user))[0];
          assert segments[p0] in segments && Contains(segments[p0], user);
        }
      }
      if matched == [] then None else Some(matched)
  }

  /** A head without the separator's first character is the first segment; splitting goes on after the separator. */
  lemma SplitHead(head: string, sep: string, rest: string)
    requires |sep| > 0
    requires forall j :: 0 <= j < |head| ==> head[j] != sep[0]
    ensures Split(head + sep + rest, sep) == [head] + Split(rest, sep)
  {
    var s := head + sep + rest;
    assert s[|head|..|head| + |sep|] == sep;
    assert forall j :: 0 <= j < |head| ==> s[j] == head[j];
    FirstOccurrence(s, sep, |head|);
    assert s[..|head|] == head;
    assert s[|head| + |sep|..] == rest;
  }

  lemma SplitOneComment()
    ensures Split("Noa: fine " + IstDelimiter, IstDelimiter) == ["Noa: fine ", ""]
  {
    var head: string := "Noa: fine ";
    var empty: string := "";
    assert forall j :: 0 <= j < |head| ==> head[j] != '(';
    SplitHead(head, IstDelimiter, empty);
    assert head + IstDelimiter + empty == head + IstDelimiter;
    assert Split(empty, IstDelimiter) == [empty];
  }

  /** A talk text with two signed comments splits into three segments. */
  lemma SplitExample()
    ensures Split("Dan: ok " + IstDelimiter + "Noa: fine " + IstDelimiter, IstDelimiter) == ["Dan: ok ", "Noa: fine ", ""]
  {
    var head: string := "Dan: ok ";
    var rest: string := "Noa: fine " + IstDelimiter;
    assert forall j :: 0 <= j < |head| ==> head[j] != '(';
    SplitHead(head, IstDelimiter, rest);
    assert head + IstDelimiter + rest == head + IstDelimiter + "Noa: fine " + IstDelimiter;
    SplitOneComment();
  }

  lemma MentioningExample()
    ensures Mentioning(["Dan: ok ", "Noa: fine ", ""], "Noa") == ["Noa: fine "]
    ensures Mentioning(["Dan: ok ", "Noa: fine ", ""], "Eli") == []
  {
    var segments := ["Dan: ok ", "Noa: fine ", ""];
    assert segments[..2] == ["Dan: ok ", "Noa: fine "];
    assert segments[..2][..1] == ["Dan: ok "];
    assert segments[..2][..1][..0] == [];
    assert OccursAt("Noa: fine ", "Noa", 0);
    AbsentByFirstChar("Dan: ok ", "Noa");
    AbsentByFirstChar("", "Noa");
    AbsentByFirstChar("Dan: ok ", "Eli");
    AbsentByFirstChar("Noa: fine ", "Eli");
    AbsentByFirstChar("", "Eli");
    assert Mentioning(segments[..2][..1], "Noa") == [];
    assert Mentioning(segments[..2], "Noa") == ["Noa: fine "];
    assert Mentioning(segments[..2][..1], "Eli") == [];
    assert Mentioning(segments[..2], "Eli") == [];
  }

  /** Only the comment that mentions the user is kept; a user nobody mentions gets None. */
  lemma UserTalkExample()
    ensures UserTalk(Some("Dan: ok " + IstDelimiter + "Noa: fine " + IstDelimiter), "Noa") == Some(["Noa: fine "])
    ensures UserTalk(Some("Dan: ok " + IstDelimiter + "Noa: fine " + IstDelimiter), "Eli") == None
  {
    SplitExample();
    MentioningExample();
  }
}
