/** The field splitter of all configuration parsing. */
module SplitString {
  import opened Options

  // ----- the two searches -----

  predicate OccursAt(s: string, sep: string, p: nat): (occurs: bool)
    ensures occurs ==> p + |sep| <= |s|
    decreases |sep|
  {
    if sep == "" then p <= |s| else p < |s| && s[p] == sep[0] && OccursAt(s, sep[1..], p + 1)
  }

  lemma {:induction false} OccursAsSlice(s: string, sep: string, p: nat)
    ensures OccursAt(s, sep, p) <==> p + |sep| <= |s| && s[p..p + |sep|] == sep
    decreases |sep|
  {
    if sep != "" && p < |s| {
      OccursAsSlice(s, sep[1..], p + 1);
      assert sep == [sep[0]] + sep[1..];
      if p + |sep| <= |s| { assert s[p..p + |sep|] == [s[p]] + s[p + 1..p + |sep|]; }
    }
  }

  function Find(s: string, sep: string, from: nat): (r: Option<nat>)
    requires from <= |s|
    ensures r.Some? ==> from <= r.value && r.value + |sep| <= |s|
    decreases |s| - from
  {
    if OccursAt(s, sep, from) then Some(from)
    else if from == |s| then None
    else Find(s, sep, from + 1)
  }

  /** The first occurrence from there on. */
  lemma {:induction false} FindIsFirst(s: string, sep: string, from: nat)
    requires from <= |s|
    ensures Find(s, sep, from).Some? ==> OccursAt(s, sep, Find(s, sep, from).value)
    ensures forall p | from <= p && (Find(s, sep, from).Some? ==> p < Find(s, sep, from).value) :: !OccursAt(s, sep, p)
    decreases |s| - from
  {
    if !OccursAt(s, sep, from) && from < |s| { FindIsFirst(s, sep, from + 1); }
  }

  function FindFirstNotOf(s: string, sep: string, from: nat): (r: Option<nat>)
    requires from <= |s|
    ensures r.Some? ==> from <= r.value < |s| && s[r.value] !in sep
    ensures forall i | from <= i < (if r.Some? then r.value else |s|) :: s[i] in sep
    decreases |s| - from
  {
    if from == |s| then None else if s[from] !in sep then Some(from) else FindFirstNotOf(s, sep, from + 1)
  }

  // ----- fields -----

  /** Everything between separators from there on, found from the left, empty fields included. */
  function FieldsFrom(s: string, sep: string, from: nat): (r: seq<string>)
    requires sep != "" && from <= |s|
    ensures r != []
    decreases |s| - from
  {
    var pos := Find(s, sep, from);
    if pos.None? then [s[from..]] else [s[from..pos.value]] + FieldsFrom(s, sep, pos.value + |sep|)
  }

  function Fields(s: string, sep: string): (r: seq<string>)
    requires sep != ""
    ensures r != []
  {
    FieldsFrom(s, sep, 0)
  }

  function NonEmpty(fs: seq<string>): seq<string> {
    if fs == [] then []
    else if fs[0] == "" then NonEmpty(fs[1..])
    else [fs[0]] + NonEmpty(fs[1..])
  }

  function Join(fs: seq<string>, sep: string): string {
    if fs == [] then "" else if |fs| == 1 then fs[0] else fs[0] + sep + Join(fs[1..], sep)
  }

  /** The nonempty fields of the text from the first character that does not occur in the separator. */
  function Tokens(s: string, sep: string): seq<string>
    requires sep != ""
  {
    Left(s, FindFirstNotOf(s, sep, 0), sep)
  }

  /** What is still to be appended. */
  function Left(s: string, begin: Option<nat>, sep: string): seq<string>
    requires sep != "" && (begin.Some? ==> begin.value <= |s|)
  {
    if begin.None? then [] else NonEmpty(FieldsFrom(s, sep, begin.value))
  }

  // ----- the loop -----

  function Piece(temp: string): seq<string> { if temp == "" then [] else [temp] }

  lemma NonEmptyOfPair(f: string, fs: seq<string>)
    ensures NonEmpty([f] + fs) == Piece(f) + NonEmpty(fs)
  {
    assert ([f] + fs)[1..] == fs;
  }

  lemma NonEmptyOfOne(f: string)
    ensures NonEmpty([f]) == Piece(f)
  {}

  lemma NoFieldAfter(s: string, sep: string, from: nat)
    requires sep != "" && from <= |s| && Find(s, sep, from).None?
    ensures Left(s, Some(from), sep) == Piece(s[from..])
  {
    NonEmptyOfOne(s[from..]);
  }

  lemma NextField(s: string, sep: string, from: nat, pos: nat, next: nat)
    requires sep != "" && from <= |s| && Find(s, sep, from) == Some(pos) && next == pos + |sep|
    ensures Left(s, Some(from), sep) == Piece(s[from..pos]) + Left(s, Some(next), sep)
  {
    FieldsStep(s, sep, from, pos, s[from..pos], next);
    NonEmptyOfPair(s[from..pos], FieldsFrom(s, sep, next));
  }

  lemma Appended(r: seq<string>, temp: string, left: seq<string>)
    ensures r + (Piece(temp) + left) == (if temp != "" then r + [temp] else r) + left
  {}

  method SplitString(str: string, ret: seq<string>, sep: string) returns (r: seq<string>)
    requires ' ' !in str && (str == "" || sep != "")
    ensures r == ret + if str == "" then [] else Tokens(str, sep)
  {
    r := ret;
    if str == "" {
      return;
    }
    var begin := FindFirstNotOf(str, sep, 0);
    while begin.Some?
      invariant begin.Some? ==> begin.value <= |str|
      invariant r + Left(str, begin, sep) == ret + Tokens(str, sep)
      decreases if begin.Some? then |str| + 1 - begin.value else 0
    {
      var temp, next := TakeField(str, begin.value, sep);
      Appended(r, temp, Left(str, next, sep));
      if temp != "" {
        r := r + [temp];
      }
      begin := next;
    }
  }

  /** The body of the loop: the field at `begin`, and where the next one begins. */
  method TakeField(str: string, begin: nat, sep: string) returns (temp: string, next: Option<nat>)
    requires sep != "" && begin <= |str|
    ensures next == NextBegin(str, begin, sep) && (next.Some? ==> begin < next.value <= |str|)
    ensures Left(str, Some(begin), sep) == Piece(temp) + Left(str, next, sep)
  {
    var pos := Find(str, sep, begin);
    if pos.Some? {
      temp := str[begin..pos.value];
      next := Some(pos.value + |sep|);
      NextField(str, sep, begin, pos.value, pos.value + |sep|);
    } else {
      temp := str[begin..];
      next := None;
      NoFieldAfter(str, sep, begin);
    }
  }

  function NextBegin(s: string, begin: nat, sep: string): (next: Option<nat>)
    requires begin <= |s|
    ensures next.Some? ==> next.value <= |s|
  {
    var pos := Find(s, sep, begin);
    if pos.Some? then Some(pos.value + |sep|) else None
  }

  /** Where the loop stands after n passes, or where it has ended. */
  function BeginAfter(s: string, sep: string, n: nat): (begin: Option<nat>)
    ensures begin.Some? ==> begin.value <= |s|
  {
    if n == 0 then FindFirstNotOf(s, sep, 0)
    else
      var begin := BeginAfter(s, sep, n - 1);
      if begin.None? then None else NextBegin(s, begin.value, sep)
  }

  lemma {:induction false} BeginAdvances(s: string, sep: string, n: nat)
    requires sep != ""
    ensures BeginAfter(s, sep, n).Some? ==> BeginAfter(s, sep, n).value >= n
  {
    if n > 0 { BeginAdvances(s, sep, n - 1); }
  }

  lemma {:induction false} EmptySeparatorStays(s: string, n: nat)
    requires s != ""
    ensures BeginAfter(s, "", n) == Some(0)
  {
    if n > 0 {
      EmptySeparatorStays(s, n - 1);
      assert OccursAt(s, "", 0);
    }
  }

  /** On a text that is not empty the loop ends exactly if the separator is not. */
  lemma SplittingEndsExactly(s: string, sep: string)
    requires s != ""
    ensures (exists n: nat :: BeginAfter(s, sep, n).None?) <==> sep != ""
  {
    if sep == "" {
      forall n: nat ensures BeginAfter(s, sep, n).Some? { EmptySeparatorStays(s, n); }
    } else {
      BeginAdvances(s, sep, |s| + 1);
      assert BeginAfter(s, sep, |s| + 1).None?;
    }
  }

  // ----- the rest of a text -----

  /** r is the text s from position d on. */
  ghost predicate IsRest(r: string, s: string, d: nat) {
    d + |r| == |s| && forall i | 0 <= i < |r| :: r[i] == s[d + i]
  }

  lemma {:induction false} OccursInRest(r: string, s: string, sep: string, d: nat, p: nat)
    requires IsRest(r, s, d)
    ensures OccursAt(r, sep, p) <==> OccursAt(s, sep, d + p)
    decreases |sep|
  {
    if sep != "" && p < |r| {
      assert r[p] == s[d + p];
      OccursInRest(r, s, sep[1..], d, p + 1);
    }
  }

  lemma SameSlice(r: string, s: string, d: nat, b: nat, c: nat)
    requires IsRest(r, s, d) && b <= c <= |r|
    ensures r[b..c] == s[d + b..d + c] && r[b..] == s[d + b..]
  {}

  /** Searching the rest of a text is searching the text from there. */
  lemma {:induction false} FindInRest(r: string, s: string, sep: string, d: nat, k: nat)
    requires IsRest(r, s, d) && k <= |r|
    ensures Find(r, sep, k) == if Find(s, sep, d + k).None? then None else Some(Find(s, sep, d + k).value - d)
    decreases |r| - k
  {
    OccursInRest(r, s, sep, d, k);
    if !OccursAt(s, sep, d + k) && k < |r| { FindInRest(r, s, sep, d, k + 1); }
  }

  lemma FieldsStep(s: string, sep: string, from: nat, pos: nat, f: string, next: nat)
    requires sep != "" && from <= |s| && Find(s, sep, from) == Some(pos) && f == s[from..pos] && next == pos + |sep|
    ensures next <= |s| && FieldsFrom(s, sep, from) == [f] + FieldsFrom(s, sep, next)
  {}

  /** The field of r at k is the field of s at `from`. */
  ghost predicate SameField(r: string, s: string, sep: string, k: nat, from: nat)
    requires k <= |r| && from <= |s|
  {
    var p, q := Find(r, sep, k), Find(s, sep, from);
    if p.None? then q.None? && r[k..] == s[from..]
    else q.Some? && q.value - from == p.value - k && r[k..p.value] == s[from..q.value]
  }

  lemma SameFieldInRest(r: string, s: string, sep: string, d: nat, k: nat)
    requires IsRest(r, s, d) && k <= |r|
    ensures SameField(r, s, sep, k, d + k)
  {
    FindInRest(r, s, sep, d, k);
    var p := Find(r, sep, k);
    SameSlice(r, s, d, k, if p.Some? then p.value else |r|);
  }

  /** Texts with the same next field have the same fields if they have the same ones after it. */
  lemma FieldsAlike(r: string, s: string, sep: string, k: nat, from: nat)
    requires sep != "" && k <= |r| && from <= |s| && SameField(r, s, sep, k, from)
    requires Find(r, sep, k).Some? ==>
               FieldsFrom(r, sep, Find(r, sep, k).value + |sep|) == FieldsFrom(s, sep, Find(s, sep, from).value + |sep|)
    ensures FieldsFrom(r, sep, k) == FieldsFrom(s, sep, from)
  {}

  lemma {:induction false} FieldsOfRest(r: string, s: string, sep: string, d: nat, k: nat)
    requires sep != "" && IsRest(r, s, d) && k <= |r|
    ensures FieldsFrom(r, sep, k) == FieldsFrom(s, sep, d + k)
    decreases |r| - k
  {
    SameFieldInRest(r, s, sep, d, k);
    if Find(r, sep, k).Some? {
      FieldsOfRest(r, s, sep, d, Find(r, sep, k).value + |sep|);
    }
    FieldsAlike(r, s, sep, k, d + k);
  }

  // ----- splitting and joining -----

  /** The first place where the separator shows, reading a field and the separator after it, is the
      end of the field; the last field does not contain it. */
  ghost predicate Delimited(fs: seq<string>, sep: string) {
    && fs != []
    && (forall i | 0 <= i < |fs| - 1 :: Find(fs[i] + sep, sep, 0) == Some(|fs[i]|))
    && Find(fs[|fs| - 1], sep, 0).None?
  }

  lemma {:induction false} OccursInHead(head: string, rest: string, sep: string, p: nat)
    requires p + |sep| <= |head|
    ensures OccursAt(head, sep, p) <==> OccursAt(head + rest, sep, p)
    decreases |sep|
  {
    if sep != "" { OccursInHead(head, rest, sep[1..], p + 1); }
  }

  lemma {:induction false} OccursAtEnd(f: string, sep: string, k: nat)
    requires k <= |sep|
    ensures OccursAt(f + sep, sep[k..], |f| + k)
    decreases |sep| - k
  {
    if k < |sep| {
      OccursAtEnd(f, sep, k + 1);
      assert sep[k..][1..] == sep[k + 1..];
    }
  }

  /** The text after a first occurrence has no say in where it is. */
  lemma {:induction false} FirstOccurrence(f: string, sep: string, rest: string, k: nat)
    requires sep != "" && k <= |f|
    ensures Find(f + sep, sep, k) == Some(|f|) <==> Find(f + sep + rest, sep, k) == Some(|f|)
    decreases |f| - k
  {
    OccursInHead(f + sep, rest, sep, k);
    if k < |f| {
      FirstOccurrence(f, sep, rest, k + 1);
    } else {
      OccursAtEnd(f, sep, 0);
      assert sep[0..] == sep;
    }
  }

  lemma Reassembled(s: string, sep: string, from: nat, pos: nat)
    requires from <= pos && OccursAt(s, sep, pos)
    ensures s[from..] == s[from..pos] + sep + s[pos + |sep|..]
  {
    OccursAsSlice(s, sep, pos);
  }

  lemma WholeAndField(whole: string, f: string, sep: string, rest: string)
    requires sep != "" && whole == f + sep + rest
    ensures Find(f + sep, sep, 0) == Some(|f|) <==> Find(whole, sep, 0) == Some(|f|)
  {
    FirstOccurrence(f, sep, rest, 0);
  }

  /** Read with the separator after it, a field ends where the separator first shows. */
  lemma FieldEnds(s: string, sep: string, from: nat, pos: nat)
    requires sep != "" && from <= |s| && Find(s, sep, from) == Some(pos) && OccursAt(s, sep, pos)
    ensures Find(s[from..pos] + sep, sep, 0) == Some(pos - from)
  {
    var whole := s[from..];
    Reassembled(s, sep, from, pos);
    FindInRest(whole, s, sep, from, 0);
    WholeAndField(whole, s[from..pos], sep, s[pos + |sep|..]);
  }

  lemma FieldSplits(s: string, sep: string, from: nat, pos: nat)
    requires sep != "" && from <= |s| && Find(s, sep, from) == Some(pos)
    ensures from <= pos <= pos + |sep| <= |s| && s[from..] == s[from..pos] + sep + s[pos + |sep|..]
    ensures Find(s[from..pos] + sep, sep, 0) == Some(pos - from)
  {
    FindIsFirst(s, sep, from);
    FieldEnds(s, sep, from, pos);
    Reassembled(s, sep, from, pos);
  }

  lemma LastField(s: string, sep: string, from: nat)
    requires sep != "" && from <= |s| && Find(s, sep, from).None?
    ensures FieldsFrom(s, sep, from) == [s[from..]] && Delimited([s[from..]], sep)
  {
    FindInRest(s[from..], s, sep, from, 0);
  }

  lemma {:induction false} JoinOfFieldsFrom(s: string, sep: string, from: nat)
    requires sep != "" && from <= |s|
    ensures Join(FieldsFrom(s, sep, from), sep) == s[from..] && Delimited(FieldsFrom(s, sep, from), sep)
    decreases |s| - from
  {
    var pos := Find(s, sep, from);
    if pos.None? {
      LastField(s, sep, from);
    } else {
      var f, next := s[from..pos.value], pos.value + |sep|;
      JoinOfFieldsFrom(s, sep, next);
      FieldSplits(s, sep, from, pos.value);
      FieldsStep(s, sep, from, pos.value, f, next);
      JoinStep(s[from..], f, sep, s[next..], FieldsFrom(s, sep, next));
    }
  }

  lemma JoinStep(whole: string, f: string, sep: string, rest: string, fs: seq<string>)
    requires sep != "" && whole == f + sep + rest && Find(f + sep, sep, 0) == Some(|f|)
    requires fs != [] && Join(fs, sep) == rest && Delimited(fs, sep)
    ensures Join([f] + fs, sep) == whole && Delimited([f] + fs, sep)
  {
    DelimitedFirst(f, fs, sep);
  }

  /** The fields of a text join back to it. */
  lemma JoinOfFields(s: string, sep: string)
    requires sep != ""
    ensures Join(Fields(s, sep), sep) == s && Delimited(Fields(s, sep), sep)
  {
    JoinOfFieldsFrom(s, sep, 0);
    assert s[0..] == s;
  }

  lemma DelimitedFirst(f: string, fs: seq<string>, sep: string)
    requires sep != "" && fs != []
    ensures Delimited([f] + fs, sep) <==> Find(f + sep, sep, 0) == Some(|f|) && Delimited(fs, sep)
    ensures Join([f] + fs, sep) == f + sep + Join(fs, sep)
  {
    var gs := [f] + fs;
    assert gs[1..] == fs;
    assert forall i | 0 <= i < |fs| :: gs[i + 1] == fs[i];
    if Delimited(gs, sep) {
      assert gs[0] == f;
      forall i | 0 <= i < |fs| - 1 ensures Find(fs[i] + sep, sep, 0) == Some(|fs[i]|) { assert gs[i + 1] == fs[i]; }
    }
    if Find(f + sep, sep, 0) == Some(|f|) && Delimited(fs, sep) {
      forall i | 0 <= i < |gs| - 1 ensures Find(gs[i] + sep, sep, 0) == Some(|gs[i]|) {
        if i > 0 { assert gs[i] == fs[i - 1]; }
      }
    }
  }

  lemma FieldsOfConcat(s: string, f: string, sep: string, rest: string)
    requires sep != "" && s == f + sep + rest && Find(f + sep, sep, 0) == Some(|f|)
    ensures Fields(s, sep) == [f] + Fields(rest, sep)
  {
    var d := |f| + |sep|;
    WholeAndField(s, f, sep, rest);
    assert IsRest(rest, s, d) && s[0..|f|] == f;
    FieldsOfRest(rest, s, sep, d, 0);
    FieldsStep(s, sep, 0, |f|, f, d);
  }

  /** The fields of a text are the only delimited strings that join to it. */
  lemma {:induction false} FieldsOfJoin(fs: seq<string>, sep: string)
    requires sep != "" && Delimited(fs, sep)
    ensures Fields(Join(fs, sep), sep) == fs
  {
    if |fs| > 1 {
      var f, rest := fs[0], fs[1..];
      assert fs == [f] + rest;
      DelimitedFirst(f, rest, sep);
      FieldsOfJoin(rest, sep);
      FieldsOfConcat(Join(fs, sep), f, sep, Join(rest, sep));
    } else {
      assert fs[0][0..] == fs[0];
    }
  }

  lemma {:induction false} NothingEmpty(fs: seq<string>)
    requires forall i | 0 <= i < |fs| :: fs[i] != ""
    ensures NonEmpty(fs) == fs
  {
    if fs != [] { NothingEmpty(fs[1..]); }
  }

  lemma {:induction false} NonEmptyIsNotEmpty(fs: seq<string>)
    ensures forall i | 0 <= i < |NonEmpty(fs)| :: NonEmpty(fs)[i] != ""
  {
    if fs != [] { NonEmptyIsNotEmpty(fs[1..]); }
  }

  /** Dropping empty fields shortens the joined text, unless there are none or nothing is left. */
  lemma {:induction false} DroppingShortens(fs: seq<string>, sep: string)
    requires sep != "" && fs != []
    ensures NonEmpty(fs) == fs || NonEmpty(fs) == [] || |Join(NonEmpty(fs), sep)| < |Join(fs, sep)|
    ensures |Join(NonEmpty(fs), sep)| <= |Join(fs, sep)|
  {
    if |fs| > 1 {
      var f, rest := fs[0], fs[1..];
      DroppingShortens(rest, sep);
      assert fs == [f] + rest;
      var ks := NonEmpty(rest);
      if f != "" && ks != [] { assert ([f] + ks)[1..] == ks; }
    }
  }

  /** Splitting undoes joining exactly for no fields at all, and for nonempty delimited fields of
      which the first does not begin with a character of the separator. */
  lemma SplitUndoesJoinExactly(fs: seq<string>, sep: string)
    requires sep != ""
    ensures Tokens(Join(fs, sep), sep) == fs <==>
              fs == [] ||
              ((forall i | 0 <= i < |fs| :: fs[i] != "") && Delimited(fs, sep) && fs[0][0] !in sep)
  {
    var s := Join(fs, sep);
    if fs != [] && Tokens(s, sep) == fs {
      TokensAreFields(fs, sep);
      JoinBegins(fs, sep);
    } else if fs != [] && Delimited(fs, sep) && (forall i | 0 <= i < |fs| :: fs[i] != "") && fs[0][0] !in sep {
      JoinBegins(fs, sep);
      assert FindFirstNotOf(s, sep, 0) == Some(0);
      FieldsOfJoin(fs, sep);
      NothingEmpty(fs);
    }
  }

  lemma TokensAreFields(fs: seq<string>, sep: string)
    requires sep != "" && fs != [] && Tokens(Join(fs, sep), sep) == fs
    ensures FindFirstNotOf(Join(fs, sep), sep, 0) == Some(0) && Fields(Join(fs, sep), sep) == fs
    ensures Delimited(fs, sep) && forall i | 0 <= i < |fs| :: fs[i] != ""
  {
    var s := Join(fs, sep);
    var begin := FindFirstNotOf(s, sep, 0).value;
    var gs := FieldsFrom(s, sep, begin);
    JoinOfFieldsFrom(s, sep, begin);
    NonEmptyIsNotEmpty(gs);
    DroppingShortens(gs, sep);
    assert |s[begin..]| == |s| - begin;
  }

  lemma JoinBegins(fs: seq<string>, sep: string)
    requires fs != [] && fs[0] != ""
    ensures Join(fs, sep) != "" && Join(fs, sep)[0] == fs[0][0]
  {}

  // ----- separators of one character -----

  ghost predicate SeparatorFree(fs: seq<string>, c: char) { forall i | 0 <= i < |fs| :: c !in fs[i] }

  lemma OccursAsCharacter(s: string, c: char, p: nat)
    ensures OccursAt(s, [c], p) <==> p < |s| && s[p] == c
  {
    assert [c][1..] == "";
  }

  lemma {:induction false} FindCharacter(s: string, c: char, from: nat)
    requires from <= |s|
    ensures Find(s, [c], from).None? <==> c !in s[from..]
    decreases |s| - from
  {
    OccursAsCharacter(s, c, from);
    if from < |s| {
      assert s[from..] == [s[from]] + s[from + 1..];
      FindCharacter(s, c, from + 1);
    }
  }

  lemma {:induction false} FindBeforeEnd(f: string, c: char, from: nat)
    requires from <= |f|
    ensures Find(f + [c], [c], from) == Some(|f|) <==> c !in f[from..]
    decreases |f| - from
  {
    OccursAsCharacter(f + [c], c, from);
    if from < |f| {
      assert f[from..] == [f[from]] + f[from + 1..];
      FindBeforeEnd(f, c, from + 1);
    }
  }

  lemma OccursOnce(f: string, c: char)
    ensures Find(f, [c], 0).None? <==> c !in f
    ensures Find(f + [c], [c], 0) == Some(|f|) <==> c !in f
  {
    FindCharacter(f, c, 0);
    FindBeforeEnd(f, c, 0);
    assert f[0..] == f;
  }

  lemma SeparatorFreeIsDelimited(fs: seq<string>, c: char)
    requires fs != []
    ensures Delimited(fs, [c]) <==> SeparatorFree(fs, c)
  {
    forall i | 0 <= i < |fs|
      ensures Find(fs[i], [c], 0).None? <==> c !in fs[i]
      ensures Find(fs[i] + [c], [c], 0) == Some(|fs[i]|) <==> c !in fs[i]
    {
      OccursOnce(fs[i], c);
    }
    if Delimited(fs, [c]) {
      forall i | 0 <= i < |fs| ensures c !in fs[i] {
        if i < |fs| - 1 { assert Find(fs[i] + [c], [c], 0) == Some(|fs[i]|); }
      }
    }
  }

  /** For a separator of one character, where the search begins makes no difference ... */
  lemma {:induction false} SkippingIsHarmless(s: string, c: char, from: nat)
    requires from <= |s|
    ensures Left(s, FindFirstNotOf(s, [c], from), [c]) == NonEmpty(FieldsFrom(s, [c], from))
    decreases |s| - from
  {
    OccursAsCharacter(s, c, from);
    if from < |s| && s[from] == c {
      SkippingIsHarmless(s, c, from + 1);
      NonEmptyOfPair("", FieldsFrom(s, [c], from + 1));
      assert s[from..from] == "";
    } else if from == |s| {
      assert s[from..] == "";
    }
  }

  lemma TrimmingIsHarmless(s: string, c: char)
    ensures Tokens(s, [c]) == NonEmpty(Fields(s, [c]))
  {
    SkippingIsHarmless(s, c, 0);
  }

  /** ... and splitting undoes joining for any nonempty separator-free fields. */
  lemma SplitUndoesJoin(fs: seq<string>, c: char)
    requires SeparatorFree(fs, c) && forall i | 0 <= i < |fs| :: fs[i] != ""
    ensures Tokens(Join(fs, [c]), [c]) == fs
  {
    SplitUndoesJoinExactly(fs, [c]);
    if fs != [] {
      SeparatorFreeIsDelimited(fs, c);
      assert fs[0][0] in fs[0];
    }
  }

  // ----- removing spaces -----

  /** The loop of `ClearAllSpace`: it erases at an index it never searches again. */
  datatype Clearing = Clearing(text: string, index: Option<nat>)

  /** Erasing at the end of the text erases nothing. */
  function Erase(s: string, index: nat): string
    requires index <= |s|
  {
    s[..index] + if index < |s| then s[index + 1..] else ""
  }

  function ErasedTimes(s: string, index: nat, n: nat): (r: string)
    requires index <= |s|
    ensures index <= |r|
  {
    if n == 0 then s else Erase(ErasedTimes(s, index, n - 1), index)
  }

  /** After n passes through the loop; the loop is not entered if there is no space to start with. */
  function Cleared(s: string, n: nat): Clearing {
    var index := Find(s, " ", 0);
    Clearing(if index.None? then s else ErasedTimes(s, index.value, n), index)
  }

  /** The loop ends exactly if there is no space: then at once, and otherwise never. */
  lemma ClearingEndsExactly(s: string)
    ensures (exists n: nat :: Cleared(s, n).index.None?) <==> ' ' !in s
  {
    OccursOnce(s, ' ');
    if ' ' !in s {
      assert Cleared(s, 0).index.None?;
    }
  }

  function From(s: string, i: nat): string { if i < |s| then s[i..] else "" }

  lemma EraseFirstOf(head: string, s: string, i: nat)
    ensures Erase(head + From(s, i), |head|) == head + From(s, i + 1)
  {
    var text := head + From(s, i);
    assert text[..|head|] == head;
    if i < |s| { assert text[|head| + 1..] == From(s, i + 1); }
  }

  lemma {:induction false} ErasedAt(s: string, i: nat, n: nat)
    requires i <= |s|
    ensures ErasedTimes(s, i, n) == s[..i] + From(s, i + n)
  {
    if n == 0 {
      assert s == s[..i] + s[i..];
    } else {
      ErasedAt(s, i, n - 1);
      EraseFirstOf(s[..i], s, i + n - 1);
    }
  }

  lemma ClearingErases(s: string, i: nat, n: nat)
    requires Find(s, " ", 0) == Some(i)
    ensures Cleared(s, n).text == s[..i] + From(s, i + n)
  {
    ErasedAt(s, i, n);
  }

  /** Meanwhile it erases everything from the first space on, not only the spaces. */
  lemma ClearingErasesTheRest(s: string, n: nat)
    requires ' ' in s
    ensures var i := Find(s, " ", 0); i.Some? && Cleared(s, n).text == s[..i.value] + From(s, i.value + n)
  {
    OccursOnce(s, ' ');
    ClearingErases(s, Find(s, " ", 0).value, n);
  }
}
