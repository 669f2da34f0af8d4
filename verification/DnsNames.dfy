/** Syntax of DNS names: the single-pass scanner and the grammar it decides (src/subject_name/dns_name.rs). */
module DnsNames {
  import opened Basics
  import opened Readers

  datatype IdRole = Reference | Presented | NameConstraint

  const DOT: Byte := '.' as int
  const STAR: Byte := '*' as int
  const HYPHEN: Byte := '-' as int
  const MAX_NAME_LENGTH: nat := 253
  const MAX_LABEL_LENGTH: nat := 63

  predicate IsLetterOrUnderscore(b: Byte) {
    || 'a' as int <= b <= 'z' as int
    || 'A' as int <= b <= 'Z' as int
    || b == '_' as int
  }

  predicate IsLabelByte(b: Byte) {
    IsDigit(b) || IsLetterOrUnderscore(b) || b == HYPHEN
  }

  // ----- labels

  /** The pieces between the dots; one more than there are dots. */
  function Split(name: Bytes): (labels: seq<Bytes>)
    ensures |labels| >= 1
  {
    if name == [] then [[]]
    else
      var before := Split(name[..|name| - 1]);
      var last := name[|name| - 1];
      if last == DOT then before + [[]] else Grow(before, last)
  }

  /** The labels with one byte more in the last of them. */
  function Grow(labels: seq<Bytes>, b: Byte): (grown: seq<Bytes>)
    requires |labels| >= 1
    ensures |grown| == |labels|
  {
    labels[|labels| - 1 := labels[|labels| - 1] + [b]]
  }

  function Join(labels: seq<Bytes>): Bytes
    requires |labels| >= 1
  {
    if |labels| == 1 then labels[0] else Join(labels[..|labels| - 1]) + [DOT] + labels[|labels| - 1]
  }

  lemma JoinWithEmpty(labels: seq<Bytes>)
    requires |labels| >= 1
    ensures Join(labels + [[]]) == Join(labels) + [DOT]
  {
    assert (labels + [[]])[..|labels|] == labels;
  }

  lemma JoinGrown(labels: seq<Bytes>, b: Byte)
    requires |labels| >= 1
    ensures Join(Grow(labels, b)) == Join(labels) + [b]
  {
    var k := |labels| - 1;
    assert Grow(labels, b)[..k] == labels[..k] && Grow(labels, b)[k] == labels[k] + [b];
  }

  lemma {:induction false} JoinOfSplit(name: Bytes)
    ensures Join(Split(name)) == name
    ensures forall i :: 0 <= i < |Split(name)| ==> DOT !in Split(name)[i]
  {
    if name != [] {
      var init, last := name[..|name| - 1], name[|name| - 1];
      JoinOfSplit(init);
      JoinWithEmpty(Split(init));
      JoinGrown(Split(init), last);
      hide Join;
      assert name == init + [last];
    }
  }

  lemma {:induction false} SplitOfJoin(labels: seq<Bytes>)
    requires |labels| >= 1
    requires forall i :: 0 <= i < |labels| ==> DOT !in labels[i]
    ensures Split(Join(labels)) == labels
    decreases |labels|, |labels[|labels| - 1]|
  {
    var k := |labels| - 1;
    var last := labels[k];
    var name := Join(labels);
    if last == [] {
      if k > 0 {
        assert name[..|name| - 1] == Join(labels[..k]);
        SplitOfJoin(labels[..k]);
      }
    } else {
      var shorter := labels[k := last[..|last| - 1]];
      assert DOT !in shorter[k];
      assert shorter[..k] == labels[..k];
      assert name[..|name| - 1] == Join(shorter);
      assert last == last[..|last| - 1] + [last[|last| - 1]];
      SplitOfJoin(shorter);
    }
  }

  /** Reading on never changes a finished label, and only lengthens the last one. */
  lemma {:induction false} SplitOfPrefix(name: Bytes, n: nat)
    requires n <= |name|
    ensures |Split(name[..n])| <= |Split(name)|
    ensures forall i :: 0 <= i < |Split(name[..n])| - 1 ==> Split(name)[i] == Split(name[..n])[i]
    ensures Split(name[..n])[|Split(name[..n])| - 1] <= Split(name)[|Split(name[..n])| - 1]
  {
    if n == |name| {
      assert name[..n] == name;
    } else {
      var init := name[..|name| - 1];
      assert init[..n] == name[..n];
      SplitOfPrefix(init, n);
    }
  }

  // ----- the grammar

  /** 1 to 63 letters, digits, underscores and inner hyphens. */
  predicate LabelOk(word: Bytes) {
    && 1 <= |word| <= 63
    && (forall i :: 0 <= i < |word| ==> IsLabelByte(word[i]))
    && word[0] != HYPHEN && word[|word| - 1] != HYPHEN
  }

  predicate AllDigits(word: Bytes) {
    word != [] && forall i :: 0 <= i < |word| ==> IsDigit(word[i])
  }

  predicate HasStar(name: Bytes, allowWildcards: bool) {
    allowWildcards && name != [] && name[0] == STAR
  }

  /** The labels that have to be ordinary: all but a wildcard, and but the empty last label that
      makes a reference absolute. */
  function OrdinaryLabels(labels: seq<Bytes>, role: IdRole, star: bool): seq<Bytes>
    requires |labels| >= 1
  {
    var behind := if star then labels[1..] else labels;
    if role == Reference && |behind| > 1 && behind[|behind| - 1] == [] then behind[..|behind| - 1] else behind
  }

  predicate ValidDnsId(name: Bytes, role: IdRole, allowWildcards: bool) {
    && |name| <= 253
    && ((role == NameConstraint && name == []) || ValidLabels(name, role, allowWildcards))
  }

  predicate ValidLabels(name: Bytes, role: IdRole, allowWildcards: bool) {
    var star := HasStar(name, allowWildcards);
    && (star ==> Split(name)[0] == [STAR])
    && Ordinary(OrdinaryLabels(Split(name), role, star), role, star)
  }

  /** Every label is ordinary, but for the empty first label of a constraint such as ".example.com". */
  predicate Ordinary(labels: seq<Bytes>, role: IdRole, star: bool) {
    && |labels| >= (if star then 2 else 1)
    && (forall i :: 0 <= i < |labels| ==>
          LabelOk(labels[i]) || (i == 0 && labels[0] == [] && |labels| > 1 && role == NameConstraint && !star))
    && !AllDigits(labels[|labels| - 1])
  }

  // ----- the scanner

  /** What the loop knows about the labels of the bytes it has read. */
  ghost predicate ScannedOk(labels: seq<Bytes>, role: IdRole, star: bool)
    requires |labels| >= 1
  {
    var current := labels[|labels| - 1];
    && (star ==> |labels| >= 2 && labels[0] == [STAR])
    && (forall i :: (if star then 1 else 0) <= i < |labels| - 1 ==>
          LabelOk(labels[i]) || (i == 0 && labels[0] == [] && role == NameConstraint))
    && |current| <= MAX_LABEL_LENGTH
    && (forall i :: 0 <= i < |current| ==> IsLabelByte(current[i]))
    && (current != [] ==> current[0] != HYPHEN)
  }

  /** The last label that has begun: the current one, or the one before it right behind a dot. */
  function LatestLabel(labels: seq<Bytes>): Bytes
    requires |labels| >= 1
  {
    var k := |labels| - 1;
    if labels[k] != [] || k == 0 then labels[k] else labels[k - 1]
  }

  /** The variables of the loop, in terms of the labels read so far. */
  ghost predicate LoopState(labels: seq<Bytes>, role: IdRole, star: bool,
                            dotCount: nat, labelLength: nat, allNumeric: bool, endsWithHyphen: bool) {
    && |labels| == dotCount + 1
    && ScannedOk(labels, role, star)
    && var current := labels[dotCount];
    && labelLength == |current|
    && allNumeric == AllDigits(LatestLabel(labels))
    && endsWithHyphen == (current != [] && current[|current| - 1] == HYPHEN)
  }

  lemma AppendByte(labels: seq<Bytes>, role: IdRole, star: bool, dotCount: nat, labelLength: nat,
                   allNumeric: bool, endsWithHyphen: bool, b: Byte)
    requires LoopState(labels, role, star, dotCount, labelLength, allNumeric, endsWithHyphen)
    requires IsLabelByte(b) && labelLength < MAX_LABEL_LENGTH
    requires b == HYPHEN ==> labelLength > 0
    ensures LoopState(Grow(labels, b), role, star, dotCount, labelLength + 1,
                      IsDigit(b) && (labelLength == 0 || allNumeric), b == HYPHEN)
  {
    hide LabelOk;
    var current := labels[dotCount];
    var next := current + [b];
    assert next[|current|] == b && forall i :: 0 <= i < |current| ==> next[i] == current[i];
    assert AllDigits(next) <==> IsDigit(b) && (current == [] || AllDigits(current));
  }

  lemma AppendDot(labels: seq<Bytes>, role: IdRole, star: bool, dotCount: nat, labelLength: nat,
                  allNumeric: bool, endsWithHyphen: bool)
    requires LoopState(labels, role, star, dotCount, labelLength, allNumeric, endsWithHyphen)
    requires labelLength == 0 ==> role == NameConstraint && dotCount == 0
    requires !endsWithHyphen
    ensures LoopState(labels + [[]], role, star, dotCount + 1, 0, allNumeric, false)
  {
    FinishedLabel(labels[dotCount]);
    hide LabelOk;
    assert !AllDigits([]);
  }

  /** One turn of the loop on a dot: the current label is finished. */
  lemma OneDot(name: Bytes, pos: nat, role: IdRole, allowWildcards: bool,
               dotCount: nat, labelLength: nat, allNumeric: bool, endsWithHyphen: bool)
    requires pos < |name| && name[pos] == DOT
    requires LoopState(Split(name[..pos]), role, HasStar(name, allowWildcards), dotCount, labelLength, allNumeric, endsWithHyphen)
    requires HasStar(name, allowWildcards) ==> dotCount >= 1
    ensures
      if (labelLength == 0 && (role != NameConstraint || pos > 0)) || endsWithHyphen
      then !ValidLabels(name, role, allowWildcards)
      else LoopState(Split(name[..pos + 1]), role, HasStar(name, allowWildcards), dotCount + 1, 0, allNumeric, false)
  {
    var labels := Split(name[..pos]);
    SplitStep(name, pos);
    StateFacts(labels, role, HasStar(name, allowWildcards), dotCount, labelLength, allNumeric, endsWithHyphen);
    OnlyTheEmptyNameHasNoByte(name[..pos]);
    hide *;
    if (labelLength == 0 && (role != NameConstraint || pos > 0)) || endsWithHyphen {
      assert dotCount == 0 && labelLength == 0 ==> labels == [[]];
      FinishedLabelRejects(name, pos + 1, role, allowWildcards, dotCount);
    } else {
      AppendDot(labels, role, HasStar(name, allowWildcards), dotCount, labelLength, allNumeric, endsWithHyphen);
    }
  }

  /** One turn of the loop on any other byte: the current label grows, or is spoiled for good. */
  lemma OneLabelByte(name: Bytes, pos: nat, role: IdRole, allowWildcards: bool,
                     dotCount: nat, labelLength: nat, allNumeric: bool, endsWithHyphen: bool)
    requires pos < |name| && name[pos] != DOT
    requires LoopState(Split(name[..pos]), role, HasStar(name, allowWildcards), dotCount, labelLength, allNumeric, endsWithHyphen)
    requires HasStar(name, allowWildcards) ==> dotCount >= 1
    ensures
      var b := name[pos];
      if !IsLabelByte(b) || (b == HYPHEN && labelLength == 0) || labelLength >= MAX_LABEL_LENGTH
      then !ValidLabels(name, role, allowWildcards)
      else LoopState(Split(name[..pos + 1]), role, HasStar(name, allowWildcards), dotCount, labelLength + 1,
                     IsDigit(b) && (labelLength == 0 || allNumeric), b == HYPHEN)
  {
    StateFacts(Split(name[..pos]), role, HasStar(name, allowWildcards), dotCount, labelLength, allNumeric, endsWithHyphen);
    ByteKinds(name[pos]);
    hide *;
    if !IsLabelByte(name[pos]) || (name[pos] == HYPHEN && labelLength == 0) || labelLength >= MAX_LABEL_LENGTH {
      SpoiledLabelRejects(name, pos, role, allowWildcards);
    } else {
      SplitStep(name, pos);
      AppendByte(Split(name[..pos]), role, HasStar(name, allowWildcards), dotCount, labelLength, allNumeric, endsWithHyphen, name[pos]);
    }
  }

  lemma OnlyTheEmptyNameHasNoByte(name: Bytes)
    ensures Split(name) == [[]] <==> name == []
  {
    JoinOfSplit(name);
  }

  /** A label of the whole name that is not ordinary and has no excuse. */
  lemma NotOrdinaryRejects(name: Bytes, role: IdRole, allowWildcards: bool, k: nat)
    requires (if HasStar(name, allowWildcards) then 1 else 0) <= k < |Split(name)|
    requires !LabelOk(Split(name)[k])
    requires Split(name)[k] != []
          || (k < |Split(name)| - 1 && (k > 0 || role != NameConstraint || HasStar(name, allowWildcards)))
    ensures !ValidLabels(name, role, allowWildcards)
  {
    hide LabelOk, AllDigits;
    var shift := if HasStar(name, allowWildcards) then 1 else 0;
    var ordinary := OrdinaryLabels(Split(name), role, HasStar(name, allowWildcards));
    assert k - shift < |ordinary| && ordinary[k - shift] == Split(name)[k];
  }

  /** A finished label that is not ordinary makes the whole name invalid. */
  lemma FinishedLabelRejects(name: Bytes, pos: nat, role: IdRole, allowWildcards: bool, k: nat)
    requires pos <= |name| && k < |Split(name[..pos])| - 1
    requires HasStar(name, allowWildcards) ==> k >= 1
    requires !LabelOk(Split(name[..pos])[k])
    requires Split(name[..pos])[k] != [] || k > 0 || role != NameConstraint
    ensures !ValidLabels(name, role, allowWildcards)
  {
    hide ValidLabels, Split, LabelOk;
    SplitOfPrefix(name, pos);
    NotOrdinaryRejects(name, role, allowWildcards, k);
  }

  /** A byte that spoils the current label makes the whole name invalid. */
  lemma SpoiledLabelRejects(name: Bytes, pos: nat, role: IdRole, allowWildcards: bool)
    requires pos < |name| && name[pos] != DOT
    requires
      var labels := Split(name[..pos]);
      var current := labels[|labels| - 1];
      && (HasStar(name, allowWildcards) ==> |labels| >= 2)
      && (|current| >= MAX_LABEL_LENGTH || (current == [] && name[pos] == HYPHEN) || !IsLabelByte(name[pos]))
    ensures !ValidLabels(name, role, allowWildcards)
  {
    SplitStep(name, pos);
    SplitOfPrefix(name, pos + 1);
    hide ValidLabels, Split;
    var k := |Split(name[..pos])| - 1;
    var whole := Split(name)[k];
    var word := Split(name[..pos])[k] + [name[pos]];
    assert word <= whole;
    assert whole[0] == word[0] && whole[|word| - 1] == name[pos];
    NotOrdinaryRejects(name, role, allowWildcards, k);
  }

  /** `is_valid_dns_id`: one pass over the bytes decides the grammar. */
  method IsValidDnsId(hostname: Bytes, role: IdRole, allowWildcards: bool) returns (ok: bool)
    ensures ok == ValidDnsId(hostname, role, allowWildcards)
  {
    hide ValidLabels, Split, LoopState, IsLabelByte, IsDigit, IsLetterOrUnderscore;
    if |hostname| > MAX_NAME_LENGTH {
      return false;
    }
    var input := new Reader(hostname);
    if role == NameConstraint && input.AtEnd() {
      return true;
    }
    var dotCount := 0;
    var labelLength := 0;
    var labelIsAllNumeric := false;
    var labelEndsWithHyphen := false;
    var isWildcard := allowWildcards && input.Peek(STAR);
    var isFirstByte := !isWildcard;
    if isWildcard {
      var first := input.ReadByte();
      var second := input.ReadByte();
      if second != Some(DOT) {
        WildcardNeedsDot(hostname, role);
        return false;
      }
      dotCount := dotCount + 1;
    }
    ghost var star := isWildcard;
    StartState(hostname, role, star);
    while true
      invariant input.Valid()
      invariant star == isWildcard == HasStar(hostname, allowWildcards)
      invariant LoopState(Split(hostname[..input.pos]), role, star, dotCount, labelLength, labelIsAllNumeric, labelEndsWithHyphen)
      invariant isFirstByte == (input.pos == 0) && (star ==> !isFirstByte && dotCount >= 1)
      invariant input.AtEnd() ==> hostname == [] || (star && |hostname| == 2 && hostname[1] == DOT)
      decreases |hostname| - input.pos
    {
      ghost var pos := input.pos;
      var b := input.ReadByte();
      if b.None? {
        NothingBehind(hostname, role, allowWildcards);
        return false;
      }
      ByteKinds(b.value);
      if b.value == DOT {
        OneDot(hostname, pos, role, allowWildcards, dotCount, labelLength, labelIsAllNumeric, labelEndsWithHyphen);
      } else {
        OneLabelByte(hostname, pos, role, allowWildcards, dotCount, labelLength, labelIsAllNumeric, labelEndsWithHyphen);
      }
      if b.value == HYPHEN {
        if labelLength == 0 {
          return false;
        }
        labelIsAllNumeric := false;
        labelEndsWithHyphen := true;
        labelLength := labelLength + 1;
        if labelLength > MAX_LABEL_LENGTH {
          return false;
        }
      } else if IsDigit(b.value) {
        if labelLength == 0 {
          labelIsAllNumeric := true;
        }
        labelEndsWithHyphen := false;
        labelLength := labelLength + 1;
        if labelLength > MAX_LABEL_LENGTH {
          return false;
        }
      } else if IsLetterOrUnderscore(b.value) {
        labelIsAllNumeric := false;
        labelEndsWithHyphen := false;
        labelLength := labelLength + 1;
        if labelLength > MAX_LABEL_LENGTH {
          return false;
        }
      } else if b.value == DOT {
        dotCount := dotCount + 1;
        if labelLength == 0 && (role != NameConstraint || !isFirstByte) {
          return false;
        }
        if labelEndsWithHyphen {
          return false;
        }
        labelLength := 0;
      } else {
        return false;
      }
      isFirstByte := false;
      if input.AtEnd() {
        break;
      }
    }
    assert hostname[..input.pos] == hostname;
    FourChecks(hostname, role, allowWildcards, dotCount, labelLength, labelIsAllNumeric, labelEndsWithHyphen);
    if labelLength == 0 && role != Reference {
      return false;
    }
    if labelEndsWithHyphen {
      return false;
    }
    if labelIsAllNumeric {
      return false;
    }
    if isWildcard {
      var labelCount := if labelLength == 0 then dotCount else dotCount + 1;
      if labelCount < 3 {
        return false;
      }
    }
    return true;
  }

  lemma StateFacts(labels: seq<Bytes>, role: IdRole, star: bool,
                   dotCount: nat, labelLength: nat, allNumeric: bool, endsWithHyphen: bool)
    requires LoopState(labels, role, star, dotCount, labelLength, allNumeric, endsWithHyphen)
    ensures |labels| == dotCount + 1 && labelLength == |labels[dotCount]| <= MAX_LABEL_LENGTH
    ensures ScannedOk(labels, role, star)
    ensures allNumeric == AllDigits(LatestLabel(labels))
    ensures endsWithHyphen == (labelLength > 0 && labels[dotCount][labelLength - 1] == HYPHEN)
    ensures labelLength == 0 || endsWithHyphen ==> !LabelOk(labels[dotCount])
  {
  }

  lemma ByteKinds(b: Byte)
    ensures IsLabelByte(b) <==> b == HYPHEN || IsDigit(b) || IsLetterOrUnderscore(b)
    ensures IsDigit(b) || IsLetterOrUnderscore(b) ==> b != HYPHEN && b != DOT
  {
  }

  /** At the end of the input the four checks behind the loop decide the grammar. */
  lemma FourChecks(name: Bytes, role: IdRole, allowWildcards: bool,
                   dotCount: nat, labelLength: nat, allNumeric: bool, endsWithHyphen: bool)
    requires name != []
    requires LoopState(Split(name), role, HasStar(name, allowWildcards), dotCount, labelLength, allNumeric, endsWithHyphen)
    ensures ValidLabels(name, role, allowWildcards)
       <==> && (labelLength == 0 ==> role == Reference)
            && !endsWithHyphen && !allNumeric
            && (HasStar(name, allowWildcards) ==> (if labelLength == 0 then dotCount else dotCount + 1) >= 3)
  {
    JoinOfSplit(name);
    Verdict(Split(name), role, HasStar(name, allowWildcards));
  }

  lemma SplitStep(name: Bytes, pos: nat)
    requires pos < |name|
    ensures name[pos] == DOT ==> Split(name[..pos + 1]) == Split(name[..pos]) + [[]]
    ensures name[pos] != DOT ==> Split(name[..pos + 1]) == Grow(Split(name[..pos]), name[pos])
  {
    assert name[..pos + 1][..pos] == name[..pos];
  }

  lemma FinishedLabel(word: Bytes)
    requires |word| <= MAX_LABEL_LENGTH
    requires forall i :: 0 <= i < |word| ==> IsLabelByte(word[i])
    requires word != [] ==> word[0] != HYPHEN
    ensures LabelOk(word) <==> word != [] && word[|word| - 1] != HYPHEN
  {
  }

  lemma WildcardPrefix(name: Bytes)
    requires |name| >= 2 && name[0] == STAR && name[1] == DOT
    ensures Split(name[..2]) == [[STAR], []]
  {
    assert name[..0] == [] && [STAR] == [] + [STAR];
    SplitStep(name, 0);
    SplitStep(name, 1);
    assert [[STAR]] + [[]] == [[STAR], []];
  }

  lemma StartState(name: Bytes, role: IdRole, star: bool)
    requires star ==> |name| >= 2 && name[0] == STAR && name[1] == DOT
    ensures LoopState(Split(name[..if star then 2 else 0]), role, star, if star then 1 else 0, 0, false, false)
  {
    assert name[..0] == [];
    if star {
      WildcardPrefix(name);
      assert !IsDigit([STAR][0]);
      assert !AllDigits([STAR]) && LatestLabel([[STAR], []]) == [STAR];
    }
  }

  lemma WildcardNeedsDot(name: Bytes, role: IdRole)
    requires name != [] && name[0] == STAR
    requires |name| < 2 || name[1] != DOT
    ensures !ValidLabels(name, role, true)
  {
    SplitStep(name, 0);
    if |name| == 1 {
      assert name == name[..1];
    } else {
      SplitStep(name, 1);
      SplitOfPrefix(name, 2);
    }
  }

  /** The loop finds no byte at all: the empty name, or a bare wildcard. */
  lemma NothingBehind(name: Bytes, role: IdRole, allowWildcards: bool)
    requires name == [] || (HasStar(name, allowWildcards) && |name| == 2 && name[1] == DOT)
    ensures !ValidLabels(name, role, allowWildcards)
  {
    if name != [] {
      WildcardPrefix(name);
      assert name[..2] == name;
    }
  }

  lemma OrdinaryUpTo(done: seq<Bytes>, last: Bytes, role: IdRole, star: bool)
    requires forall i :: 0 <= i < |done| ==> LabelOk(done[i]) || (i == 0 && done[0] == [] && role == NameConstraint && !star)
    requires last != []
    ensures Ordinary(done + [last], role, star)
       <==> LabelOk(last) && !AllDigits(last) && (star ==> done != [])
  {
    hide LabelOk, AllDigits;
    assert (done + [last])[|done|] == last;
  }

  /** The four checks behind the loop are what is left of the grammar. */
  lemma Verdict(labels: seq<Bytes>, role: IdRole, star: bool)
    requires |labels| >= 1 && labels != [[]]
    requires ScannedOk(labels, role, star)
    ensures
      var current := labels[|labels| - 1];
      Ordinary(OrdinaryLabels(labels, role, star), role, star)
      <==>
      && (current == [] ==> role == Reference)
      && (current == [] || current[|current| - 1] != HYPHEN)
      && !AllDigits(LatestLabel(labels))
      && (star ==> |labels| >= if current == [] then 4 else 3)
  {
    var k := |labels| - 1;
    FinishedLabel(labels[k]);
    hide LabelOk, AllDigits, IsLabelByte, Ordinary;
    var shift := if star then 1 else 0;
    if labels[k] != [] {
      OrdinaryUpTo(labels[shift..k], labels[k], role, star);
      assert labels[shift..] == labels[shift..k] + [labels[k]];
    } else if role == Reference && k > shift {
      VerdictAbsolute(labels, star);
    } else {
      NoEmptyLast(labels[shift..], role, star);
    }
  }

  lemma VerdictAbsolute(labels: seq<Bytes>, star: bool)
    requires |labels| > (if star then 2 else 1)
    requires labels[|labels| - 1] == []
    requires ScannedOk(labels, Reference, star)
    ensures Ordinary(OrdinaryLabels(labels, Reference, star), Reference, star)
       <==> !AllDigits(labels[|labels| - 2]) && (star ==> |labels| >= 4)
  {
    var k := |labels| - 1;
    var shift := if star then 1 else 0;
    assert !LabelOk([]);
    hide LabelOk, AllDigits, IsLabelByte, Ordinary;
    OrdinaryUpTo(labels[shift..k - 1], labels[k - 1], Reference, star);
    assert labels[shift..][..k - shift] == labels[shift..k - 1] + [labels[k - 1]];
  }

  lemma NoEmptyLast(labels: seq<Bytes>, role: IdRole, star: bool)
    requires labels != [] && labels[|labels| - 1] == []
    ensures !Ordinary(labels, role, star)
  {
  }
}
