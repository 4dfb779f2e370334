/** `generate_next_scene`: dropping the previous scene when the model echoes
    it before the new text (app.py:157-164). */
module SceneContinuation {
  import opened PyText

  /** What the echo strip evaluates to as written: the new scene, or the
      ValueError that `str.split` raises for an empty separator. */
  datatype SceneResult = Scene(text: string) | EmptySeparator

  /** Lines 158-162 as written: if the previous scene occurs in the reply,
      keep `reply.split(scene)[1]`, then strip. With an empty previous scene
      `"" in reply` always holds and the split raises. */
  function NextSceneAsWritten(scene: string, reply: string): (r: SceneResult)
    ensures r.EmptySeparator? <==> scene == []
  {
    EmptyOccurs(reply);
    if Contains(reply, scene) then
      if scene == [] then EmptySeparator
      else
        SplitHasSecondPiece(reply, scene);
        Scene(Strip(Split(reply, scene)[1]))
    else Scene(Strip(reply))
  }

  /** The echo strip with the empty previous scene treated as "nothing to
      strip": the whole reply, stripped. Every other input is handled
      exactly as written. */
  function NextScene(scene: string, reply: string): string {
    if scene != [] && Contains(reply, scene) then
      SplitHasSecondPiece(reply, scene);
      Strip(Split(reply, scene)[1])
    else Strip(reply)
  }

  /** The corrected strip agrees with the code as written on every
      non-empty previous scene. */
  lemma NextSceneAgreesAsWritten(scene: string, reply: string)
    requires scene != []
    ensures NextSceneAsWritten(scene, reply) == Scene(NextScene(scene, reply))
  {
  }

  /** The first piece of `split` runs up to the first occurrence of the
      separator, or to the end of the text when there is none. */
  lemma SplitFirstPiece(t: string, sep: string, m: nat)
    requires sep != [] && m <= |t|
    requires OccursAt(t, sep, m) || m == |t|
    requires forall k :: 0 <= k < m ==> !OccursAt(t, sep, k)
    ensures Split(t, sep)[0] == t[..m]
  {
    var f := Find(t, sep);
    if f == -1 {
      assert !OccursAt(t, sep, m);
      assert m == |t|;
    } else {
      assert f == m;
    }
  }

  /** The same, for a suffix `s[start..]` read as a slice of `s`. */
  lemma SplitFirstPieceOfSuffix(s: string, sep: string, start: nat, j: nat)
    requires sep != [] && start <= j <= |s|
    requires OccursAt(s, sep, j) || j == |s|
    requires forall k :: start <= k < j ==> !OccursAt(s, sep, k)
    ensures Split(s[start..], sep)[0] == s[start..j]
  {
    var tail := s[start..];
    NoOccurrenceInSuffix(s, sep, start, j);
    OccursInSuffix(s, sep, start, j - start);
    SuffixPiece(tail, sep, j - start, s, start, j);
  }

  lemma SuffixPiece(tail: string, sep: string, m: nat, s: string, start: nat, j: nat)
    requires sep != [] && m <= |tail|
    requires OccursAt(tail, sep, m) || m == |tail|
    requires forall k :: 0 <= k < m ==> !OccursAt(tail, sep, k)
    requires start <= j <= |s| && tail == s[start..] && m == j - start
    ensures Split(tail, sep)[0] == s[start..j]
  {
    SplitFirstPiece(tail, sep, m);
    assert tail[..m] == s[start..j];
  }

  /** Past the first occurrence, `split` goes on with the rest of the text. */
  lemma SplitAtFirst(s: string, sep: string, i: nat)
    requires sep != []
    requires OccursAt(s, sep, i) && forall k :: 0 <= k < i ==> !OccursAt(s, sep, k)
    ensures Split(s, sep) == [s[..i]] + Split(s[i + |sep|..], sep)
  {
    assert Find(s, sep) == i;
  }

  /** The second piece of `split` is the text after the first occurrence of
      the separator, up to (not including) the next occurrence that starts at
      or after its end, or up to the end of the text. */
  lemma SplitSecondPiece(s: string, sep: string, i: nat, j: nat)
    requires sep != []
    requires OccursAt(s, sep, i) && forall k :: 0 <= k < i ==> !OccursAt(s, sep, k)
    requires i + |sep| <= j <= |s|
    requires OccursAt(s, sep, j) || j == |s|
    requires forall k :: i + |sep| <= k < j ==> !OccursAt(s, sep, k)
    ensures |Split(s, sep)| >= 2 && Split(s, sep)[1] == s[i + |sep|..j]
  {
    SplitAtFirst(s, sep, i);
    SplitFirstPieceOfSuffix(s, sep, i + |sep|, j);
    SecondOfCons(s[..i], Split(s[i + |sep|..], sep));
  }

  /** The second element of `[a] + rest` is the first of `rest`. */
  lemma SecondOfCons(a: string, rest: seq<string>)
    requires |rest| >= 1
    ensures |[a] + rest| >= 2 && ([a] + rest)[1] == rest[0]
  {
  }

  /** Echo stripping keeps exactly the stripped text between the first and
      the second occurrence of the previous scene (not everything after the
      first one). */
  lemma NextSceneBetweenEchoes(scene: string, reply: string, i: nat, j: nat)
    requires scene != []
    requires OccursAt(reply, scene, i) && forall k :: 0 <= k < i ==> !OccursAt(reply, scene, k)
    requires i + |scene| <= j <= |reply|
    requires OccursAt(reply, scene, j) || j == |reply|
    requires forall k :: i + |scene| <= k < j ==> !OccursAt(reply, scene, k)
    ensures NextScene(scene, reply) == Strip(reply[i + |scene|..j])
  {
    SplitSecondPiece(reply, scene, i, j);
  }

  /** Corrected: an empty previous scene has nothing to strip, so the reply
      is kept whole, stripped, where the code as written raises. */
  lemma EmptySceneKeepsReply(reply: string)
    ensures NextScene("", reply) == Strip(reply)
    ensures NextSceneAsWritten("", reply).EmptySeparator?
  {
  }

  /** A reply that does not echo the previous scene is kept whole, stripped. */
  lemma NextSceneWithoutEcho(scene: string, reply: string)
    requires !Contains(reply, scene)
    ensures NextScene(scene, reply) == Strip(reply)
  {
  }

  /** As written, an empty previous scene makes every continuation raise. */
  lemma EmptySceneRaises(reply: string)
    ensures NextSceneAsWritten("", reply) == EmptySeparator
  {
  }

  /** A reply that is nothing but the echoed scene yields an empty next
      scene, from which the as-written strip then raises on every reply. */
  lemma ExactEchoEmptiesScene(scene: string, reply: string)
    requires scene != []
    ensures NextScene(scene, scene) == ""
    ensures NextSceneAsWritten(NextScene(scene, scene), reply) == EmptySeparator
  {
    assert OccursAt(scene, scene, 0);
    SplitSecondPiece(scene, scene, 0, |scene|);
  }
}
