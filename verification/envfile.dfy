/**
 * `_env_replace_initial_jwt` of scripts/refresh_jwt_env.py: rewrite the
 * `INITIAL_JWT=` line of an env file's text, or append one when there is none.
 * The multi-line regular expression `^INITIAL_JWT=.*$` matches exactly the lines
 * (pieces between newlines) that start with the key, so the model works on lines.
 */
module EnvFile {
  import Text

  const Key: string := "INITIAL_JWT="

  function Lines(s: string): seq<string> {
    Text.Split(s, '\n')
  }

  predicate IsJwtLine(l: string) {
    Key <= l
  }

  predicate HasJwtLine(s: string) {
    exists k :: 0 <= k < |Lines(s)| && IsJwtLine(Lines(s)[k])
  }

  /** Every key line replaced by `line`, every other line kept. */
  function Rewrite(ls: seq<string>, line: string): (r: seq<string>)
    ensures |r| == |ls|
    ensures forall k :: 0 <= k < |ls| ==> r[k] == if IsJwtLine(ls[k]) then line else ls[k]
  {
    seq(|ls|, k requires 0 <= k < |ls| => if IsJwtLine(ls[k]) then line else ls[k])
  }

  /** The separator that puts an appended line on a line of its own. */
  function Sep(env: string): string {
    if |env| > 0 && env[|env| - 1] == '\n' then "" else "\n"
  }

  /**
   * The rewrite: with a key line present, every key line becomes
   * `INITIAL_JWT=<jwt>` and nothing else changes; otherwise the line is appended,
   * after a newline unless the text already ends with one, and followed by one.
   */
  function ReplaceInitialJwt(env: string, jwt: string): (r: string)
    ensures !HasJwtLine(env) ==> env <= r && |r| > |env| && r[|r| - 1] == '\n'
  {
    var line := Key + jwt;
    if HasJwtLine(env) then Text.Join(Rewrite(Lines(env), line), '\n')
    else env + Sep(env) + line + "\n"
  }

  /** `env + Sep(env)` is the text up to its last newline, plus that newline. */
  lemma AppendLines(env: string, line: string)
    ensures var a := if Sep(env) == "" then env[..|env| - 1] else env;
      && Lines(env + Sep(env) + line + "\n") == Lines(a) + Lines(line) + [""]
      && (Sep(env) == "" ==> Lines(env) == Lines(a) + [""])
      && (Sep(env) != "" ==> Lines(env) == Lines(a))
  {
    var a := if Sep(env) == "" then env[..|env| - 1] else env;
    assert env + Sep(env) == a + ['\n'];
    assert env + Sep(env) + line + "\n" == a + ['\n'] + (line + ['\n'] + "");
    Text.SplitAt(a, line + ['\n'] + "", '\n');
    Text.SplitAt(line, "", '\n');
    assert Lines("") == [""];
    if Sep(env) == "" {
      assert env == a + ['\n'] + "";
      Text.SplitAt(a, "", '\n');
    }
  }

  /**
   * After the rewrite, the text has the line `INITIAL_JWT=<jwt>`, and every key
   * line it has is that line (for a token without newlines).
   */
  lemma ResultHasOnlyNewLine(env: string, jwt: string)
    requires '\n' !in jwt
    ensures var ls := Lines(ReplaceInitialJwt(env, jwt));
      && (exists k :: 0 <= k < |ls| && ls[k] == Key + jwt)
      && (forall k :: 0 <= k < |ls| && IsJwtLine(ls[k]) ==> ls[k] == Key + jwt)
  {
    var line := Key + jwt;
    assert '\n' !in line by {
      assert forall k :: 0 <= k < |Key| ==> Key[k] != '\n';
      assert forall k :: 0 <= k < |line| ==> line[k] == if k < |Key| then Key[k] else jwt[k - |Key|];
    }
    var ls := Lines(ReplaceInitialJwt(env, jwt));
    if HasJwtLine(env) {
      var k :| 0 <= k < |Lines(env)| && IsJwtLine(Lines(env)[k]);
      var rw := Rewrite(Lines(env), line);
      Text.JoinSplit(rw, '\n');
      assert ls == rw;
      assert ls[k] == line;
    } else {
      var a := if Sep(env) == "" then env[..|env| - 1] else env;
      AppendLines(env, line);
      Text.SplitNone(line, '\n');
      assert ls == Lines(a) + [line] + [""];
      assert ls[|Lines(a)|] == line;
      forall k | 0 <= k < |Lines(a)|
        ensures !IsJwtLine(Lines(a)[k])
      {
        assert Lines(env)[k] == Lines(a)[k];
      }
      assert forall k :: 0 <= k < |ls| && k != |Lines(a)| ==> !IsJwtLine(ls[k]) by {
        assert !(Key <= "");
      }
    }
  }

  /**
   * With a key line present, the text keeps its number of lines, every key line
   * becomes the new line and every other line is kept as it was.
   */
  lemma ReplaceKeepsOtherLines(env: string, jwt: string)
    requires '\n' !in jwt && HasJwtLine(env)
    ensures var ls, rs := Lines(env), Lines(ReplaceInitialJwt(env, jwt));
      && |rs| == |ls|
      && forall k :: 0 <= k < |ls| ==> rs[k] == if IsJwtLine(ls[k]) then Key + jwt else ls[k]
  {
    var line := Key + jwt;
    assert '\n' !in line by {
      assert forall k :: 0 <= k < |line| ==> line[k] == if k < |Key| then Key[k] else jwt[k - |Key|];
    }
    Text.JoinSplit(Rewrite(Lines(env), line), '\n');
  }

  /** Rewriting with the same token twice is the same as rewriting once. */
  lemma ReplaceIdempotent(env: string, jwt: string)
    requires '\n' !in jwt
    ensures ReplaceInitialJwt(ReplaceInitialJwt(env, jwt), jwt) == ReplaceInitialJwt(env, jwt)
  {
    var r := ReplaceInitialJwt(env, jwt);
    var line := Key + jwt;
    ResultHasOnlyNewLine(env, jwt);
    var ls := Lines(r);
    assert HasJwtLine(r) by {
      var k :| 0 <= k < |ls| && ls[k] == line;
      assert Key <= line;
    }
    assert Rewrite(ls, line) == ls;
    Text.SplitJoin(r, '\n');
  }

  /** An empty file becomes a blank first line followed by the key line. */
  lemma EmptyFile(jwt: string)
    ensures ReplaceInitialJwt("", jwt) == "\nINITIAL_JWT=" + jwt + "\n"
  {
    assert !HasJwtLine("") by {
      assert Lines("") == [""];
    }
  }
}
