/** Helpers shared by the handlers: the hashes that name users and autograder
    images, removal of an autograder's Docker image, the timeout decorator,
    the teacher list and the teacher-only decorator.

    The hash functions (SHA-256 of a user name, MD5 of an autograder zip, both
    rendered as lower-case hex) are library code; they are parameters here and
    nothing is assumed about them beyond being functions. */
module Misc {
  import opened Common

  /** A hash function rendered as its hex digest. */
  type HexDigest = seq<byte> -> string

  /** `get_user_hash`: the SHA-256 hex digest of the user's name (the digest
      function takes the name, standing for its UTF-8 encoding). */
  function GetUserHash(sha256: string -> string, user: User): string
  {
    sha256(user.name)
  }

  /** Only the name enters the user hash: users with the same name, whatever
      their groups, get the same hash. */
  lemma UserHashDependsOnlyOnName(sha256: string -> string, u: User, v: User)
    requires u.name == v.name
    ensures GetUserHash(sha256, u) == GetUserHash(sha256, v)
  {
  }

  /** `calcuate_zip_hash`: the MD5 hex digest of the zip; the empty string it
      starts from is always overwritten. */
  function CalculateZipHash(md5: HexDigest, data: seq<byte>): string
  {
    md5(data)
  }

  /** The content-addressed tag of an autograder image, as
      `delete_docker_image` builds it: the otter image name, a colon, and the
      MD5 hex digest of the zip. */
  function ImageTag(tagPrefix: string, md5: HexDigest, data: seq<byte>): string
  {
    tagPrefix + ":" + md5(data)
  }

  /** The tag is the prefix, a colon, and exactly the zip hash. */
  lemma ImageTagCarriesZipHash(tagPrefix: string, md5: HexDigest, data: seq<byte>)
    ensures var tag := ImageTag(tagPrefix, md5, data);
            |tag| == |tagPrefix| + 1 + |CalculateZipHash(md5, data)| &&
            tag[..|tagPrefix|] == tagPrefix && tag[|tagPrefix|] == ':' &&
            tag[|tagPrefix| + 1..] == CalculateZipHash(md5, data)
  {
  }

  /** Two zips get the same image tag exactly when they have the same zip
      hash; in particular equal data always gives equal tags. */
  lemma ImageTagsAgreeWithZipHashes(tagPrefix: string, md5: HexDigest, a: seq<byte>, b: seq<byte>)
    ensures ImageTag(tagPrefix, md5, a) == ImageTag(tagPrefix, md5, b) <==>
            CalculateZipHash(md5, a) == CalculateZipHash(md5, b)
  {
    ImageTagCarriesZipHash(tagPrefix, md5, a);
    ImageTagCarriesZipHash(tagPrefix, md5, b);
  }

  /** What `docker.image.remove(image, force=True)` does. */
  datatype RemoveOutcome = Removed | NoSuchImage(detail: string) | DockerFailure

  datatype LogRecord = Info(message: string) | Warning(message: string)

  /** `delete_docker_image`: log the target tag, ask Docker to remove it, and
      tolerate an image that is not there with one warning. Any other Docker
      failure is not caught and escapes to the caller. */
  method DeleteDockerImage(tagPrefix: string, md5: HexDigest, data: seq<byte>, remove: string -> RemoveOutcome)
    returns (image: string, log: seq<LogRecord>, escaped: bool)
    ensures image == tagPrefix + ":" + CalculateZipHash(md5, data)
    ensures remove(image).Removed? ==> log == [Info("Deleting docker image " + image)] && !escaped
    ensures remove(image).NoSuchImage? ==>
              log == [Info("Deleting docker image " + image), Warning("Image not found: " + remove(image).detail)] &&
              !escaped
    ensures remove(image).DockerFailure? ==> log == [Info("Deleting docker image " + image)] && escaped
  {
    var digest := md5(data);
    image := tagPrefix + ":" + digest;
    log := [Info("Deleting docker image " + image)];
    escaped := false;
    match remove(image) {
      case Removed =>
      case NoSuchImage(detail) =>
        log := log + [Warning("Image not found: " + detail)];
      case DockerFailure =>
        escaped := true;
    }
  }

  /** `timeout_injector`: the decorated method receives the caller's receiver,
      positional arguments and keyword arguments, except that `timeout` is
      set to 600 whatever the caller passed. */
  method TimeoutInjector<S>(call: Call<S>) returns (forwarded: Call<S>)
    ensures forwarded.receiver == call.receiver && forwarded.args == call.args
    ensures "timeout" in forwarded.kwargs && forwarded.kwargs["timeout"] == Int(600)
    ensures forwarded.kwargs.Keys == call.kwargs.Keys + {"timeout"}
    ensures forall k :: k in call.kwargs && k != "timeout" ==> forwarded.kwargs[k] == call.kwargs[k]
  {
    var kwargs := call.kwargs;
    kwargs := kwargs["timeout" := Int(600)];
    forwarded := Call(call.receiver, call.args, kwargs);
  }

  function StripStart(s: string): string
  {
    if s != [] && IsSpace(s[0]) then StripStart(s[1..]) else s
  }

  function StripEnd(s: string): string
  {
    if s != [] && IsSpace(s[|s| - 1]) then StripEnd(s[..|s| - 1]) else s
  }

  /** `str.strip()`: leading and trailing whitespace removed. */
  function Strip(s: string): string
  {
    StripEnd(StripStart(s))
  }

  /** A string is stripped when it neither begins nor ends with whitespace. */
  predicate Stripped(t: string)
  {
    t == [] || (!IsSpace(t[0]) && !IsSpace(t[|t| - 1]))
  }

  lemma {:induction false} StripStartSkips(a: string, rest: string)
    requires AllSpace(a) && (rest == [] || !IsSpace(rest[0]))
    ensures StripStart(a + rest) == rest
  {
    if a != [] {
      assert (a + rest)[1..] == a[1..] + rest;
      StripStartSkips(a[1..], rest);
    }
  }

  lemma {:induction false} StripEndSkips(rest: string, b: string)
    requires AllSpace(b) && (rest == [] || !IsSpace(rest[|rest| - 1]))
    ensures StripEnd(rest + b) == rest
  {
    if b != [] {
      var s := rest + b;
      assert s[..|s| - 1] == rest + b[..|b| - 1];
      StripEndSkips(rest, b[..|b| - 1]);
    } else {
      assert rest + b == rest;
    }
  }

  /** Stripping removes exactly the surrounding whitespace: a string made of
      whitespace, a stripped core and whitespace strips to that core. */
  lemma StripRemovesPadding(a: string, t: string, b: string)
    requires AllSpace(a) && AllSpace(b) && Stripped(t)
    ensures Strip(a + t + b) == t
  {
    if t == [] {
      assert a + t + b == (a + b) + [];
      StripStartSkips(a + b, []);
    } else {
      assert a + t + b == a + (t + b);
      assert (t + b)[0] == t[0];
      StripStartSkips(a, t + b);
      StripEndSkips(t, b);
    }
  }

  lemma {:induction false} StripStartShape(s: string) returns (i: nat)
    ensures i <= |s| && StripStart(s) == s[i..] && AllSpace(s[..i])
    ensures StripStart(s) == [] || !IsSpace(StripStart(s)[0])
  {
    if s != [] && IsSpace(s[0]) {
      var k := StripStartShape(s[1..]);
      i := k + 1;
      assert s[1..][k..] == s[i..];
      assert forall n :: 1 <= n < i ==> s[..i][n] == s[1..][..k][n - 1];
    } else {
      i := 0;
    }
  }

  lemma {:induction false} StripEndShape(s: string) returns (j: nat)
    ensures j <= |s| && StripEnd(s) == s[..j] && AllSpace(s[j..])
    ensures StripEnd(s) == [] || !IsSpace(StripEnd(s)[|StripEnd(s)| - 1])
  {
    if s != [] && IsSpace(s[|s| - 1]) {
      var front := s[..|s| - 1];
      j := StripEndShape(front);
      assert front[..j] == s[..j];
      forall n | 0 <= n < |s| - j ensures IsSpace(s[j..][n]) {
        if n < |s| - 1 - j {
          assert s[j..][n] == front[j..][n];
        }
      }
    } else {
      j := |s|;
    }
  }

  /** The result of `strip()` is a stripped infix of its input, surrounded by
      whitespace only. */
  lemma StripShape(s: string) returns (i: nat, j: nat)
    ensures i <= j <= |s| && Strip(s) == s[i..j]
    ensures AllSpace(s[..i]) && AllSpace(s[j..])
    ensures Stripped(Strip(s))
  {
    i := StripStartShape(s);
    var k := StripEndShape(s[i..]);
    j := i + k;
    assert s[i..][..k] == s[i..j];
    assert s[i..][k..] == s[j..];
    var t := Strip(s);
    if t != [] && StripStart(s) != [] {
      assert t[0] == StripStart(s)[0];
    }
  }

  /** Stripping twice is stripping once. */
  lemma StripIdempotent(s: string)
    ensures Strip(Strip(s)) == Strip(s)
  {
    var i, j := StripShape(s);
    var t := Strip(s);
    assert [] + t + [] == t;
    StripRemovesPadding([], t, []);
  }

  /** `teachers()`: the lines of the teacher file, each stripped. Reading the
      file is not modelled; its lines come in as they are read. */
  function Teachers(lines: seq<string>): (names: seq<string>)
    ensures |names| == |lines|
    ensures forall i :: 0 <= i < |lines| ==> names[i] == Strip(lines[i])
  {
    seq(|lines|, i requires 0 <= i < |lines| => Strip(lines[i]))
  }

  /** `teacher_only` (name list): a user whose name is not one of the
      stripped teacher lines gets HTTP 403; anyone else reaches the decorated
      method with the call unchanged. */
  function TeacherOnly<S>(teacherLines: seq<string>, user: User, call: Call<S>): (r: Gate<S>)
    ensures r == Forbidden(403) <==> forall i :: 0 <= i < |teacherLines| ==> Strip(teacherLines[i]) != user.name
    ensures r.Forward? ==> r.call == call
  {
    if user.name !in Teachers(teacherLines) then Forbidden(403) else Forward(call)
  }
}
