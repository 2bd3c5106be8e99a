/**
  The top of the decoder: the header, the outline list and the tree levels
  of one decompressed index file, plus the friendly name taken from the
  package's archive comment.
 */
module IndexTools {
  import opened Wrappers
  import opened Binary
  import opened Header
  import opened Record
  import opened FileList
  import opened Hierarchy

  const Semicolon: CodeUnit := 0x3B

  /** The position of the last `c` in s, or -1 when s has none. */
  function LastIndexOf(s: Text, c: CodeUnit): (r: int)
    ensures -1 <= r < |s|
    ensures r >= 0 ==> s[r] == c
    ensures forall i :: r < i < |s| ==> s[i] != c
    decreases |s|
  {
    if s == [] then -1
    else if s[|s| - 1] == c then |s| - 1
    else LastIndexOf(s[..|s| - 1], c)
  }

  /**
    The friendly name in an archive comment: everything after the last
    semicolon, or the whole comment when it has none.
   */
  function FriendlyName(comment: Text): (name: Text)
    ensures |name| <= |comment|
    ensures name == comment[|comment| - |name|..]
    ensures Semicolon !in name
    ensures |name| == |comment| || comment[|comment| - |name| - 1] == Semicolon
  {
    comment[LastIndexOf(comment, Semicolon) + 1..]
  }

  /** A semicolon-free name after a semicolon is exactly what FriendlyName recovers. */
  lemma FriendlyNameOfJoin(prefix: Text, name: Text)
    requires Semicolon !in name
    ensures FriendlyName(prefix + [Semicolon] + name) == name
  {
    var comment := prefix + [Semicolon] + name;
    forall i | |prefix| < i < |comment|
      ensures comment[i] != Semicolon
    {
      assert comment[i] == name[i - |prefix| - 1];
    }
    assert comment[|prefix|] == Semicolon;
    assert LastIndexOf(comment, Semicolon) == |prefix|;
    assert comment[|prefix| + 1..] == name;
  }

  /** A comment without semicolons is its own friendly name. */
  lemma FriendlyNameWithoutSemicolon(comment: Text)
    requires Semicolon !in comment
    ensures FriendlyName(comment) == comment
  {
  }

  /** Taking the friendly name of a friendly name changes nothing. */
  lemma FriendlyNameIdempotent(comment: Text)
    ensures FriendlyName(FriendlyName(comment)) == FriendlyName(comment)
  {
    FriendlyNameWithoutSemicolon(FriendlyName(comment));
  }

  /** A decoded index file: the header and the outline entries in list order. */
  datatype IndexInfo = IndexInfo(header: IndexHeader, records: seq<IndexRecord>)

  /**
    ExtractAs2IndexInfo once the index file has been taken out of the
    archive: decode the header, follow the list from its FirstItemIndex,
    assign tree levels, and set the friendly name from the archive comment.
    A header failure is reported before the list is looked at.
   */
  method ExtractIndexInfo(index: seq<Byte>, comment: Text) returns (r: Result<IndexInfo>, trail: seq<Int32>)
    ensures |index| < HeaderReadLength ==> r == Failure(BufferTooShort) && trail == []
    ensures |index| >= HeaderReadLength && ZeroKeyInUse(index) <==> r == Failure(InvalidDivision)
    ensures r.Success? ==> |index| >= HeaderReadLength && LaidOutAt(index, r.value.header)
    ensures r.Success? ==> Password.Decrypt(r.value.header.password, r.value.header.passwordKey) == Success(r.value.header.decryptedPassword)
    ensures r.Success? ==> r.value.header.abkFriendlyName == FriendlyName(comment)
    ensures r.Success? ==> Ends(index, r.value.header.firstItemIndex, trail, Completed)
    ensures r.Success? ==> |r.value.records| == |trail|
    ensures r.Success? ==> forall i :: 0 <= i < |trail| ==>
      r.value.records[i] == Entries(index, trail)[i].(treeLevel := r.value.records[i].treeLevel)
    ensures r.Success? ==> FollowsRules(Entries(index, trail), Levels(r.value.records))
    ensures r.Failure? && |index| >= HeaderReadLength && !ZeroKeyInUse(index) ==>
      || (r.error == BufferTooShort && Ends(index, Int32At(index, 180), trail, RanOff))
      || (r.error == CyclicList && Ends(index, Int32At(index, 180), trail, Cycled))
  {
    var header := GetHeader(index);
    if header.Failure? {
      return Failure(header.error), [];
    }
    var list;
    list, trail := GetFileList(index, header.value.firstItemIndex);
    if list.Failure? {
      return Failure(list.error), trail;
    }
    var records := ProcessHierarchy(list.value);
    var named := header.value.(abkFriendlyName := FriendlyName(comment));
    r := Success(IndexInfo(named, records));
  }
}
