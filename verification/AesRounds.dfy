/** The round structure of Cipher and InvCipher (FIPS 197, figures 5 and 12), for any
    layers: the loop of `aes_decrypt_block` runs the loop of `aes_encrypt_block`
    backwards, peeling off one layer at a time. */
module AesRounds {

  /** The layers of a round: substitute is ShiftRows after SubBytes. */
  datatype Layers<!T(!new)> = Layers(
    substitute: T -> T, unsubstitute: T -> T,
    mix: T -> T, unmix: T -> T,
    addKey: (T, T) -> T)
  {
    /** Every layer but the mixing is undone. */
    ghost predicate Peels(keys: seq<T>) {
      && (forall s: T :: unsubstitute(substitute(s)) == s)
      && (forall s: T, k: T :: k in keys ==> addKey(addKey(s, k), k) == s)
    }

    /** The state after round r of the main loop of encryption. */
    function After(keys: seq<T>, x: T, r: nat): T
      requires r < |keys|
      decreases r, 0
    {
      if r == 0 then addKey(x, keys[0]) else addKey(mix(Substituted(keys, x, r)), keys[r])
    }

    /** The state of round r of encryption before it is mixed. */
    function Substituted(keys: seq<T>, x: T, r: nat): T
      requires 1 <= r <= |keys|
      decreases r - 1, 1
    {
      substitute(After(keys, x, r - 1))
    }

    function Encrypt(keys: seq<T>, x: T): T
      requires 2 <= |keys|
    {
      addKey(Substituted(keys, x, |keys| - 1), keys[|keys| - 1])
    }

    /** Encryption does not depend on how the mixing is undone. */
    lemma {:induction false} EncryptIgnoresUnmix(unmix': T -> T, keys: seq<T>, x: T, r: nat)
      requires r < |keys|
      ensures this.(unmix := unmix').After(keys, x, r) == After(keys, x, r)
    {
      if r > 0 {
        EncryptIgnoresUnmix(unmix', keys, x, r - 1);
      }
    }

    /** The state of decryption before round r is undone. */
    function Back(keys: seq<T>, y: T, r: nat): T
      requires 1 <= r < |keys|
      decreases |keys| - r
    {
      if r == |keys| - 1 then addKey(y, keys[r])
      else unmix(addKey(unsubstitute(Back(keys, y, r + 1)), keys[r]))
    }

    function Decrypt(keys: seq<T>, y: T): T
      requires 2 <= |keys|
    {
      addKey(unsubstitute(Back(keys, y, 1)), keys[0])
    }

    /** Whether unmix undoes mix in round r of the encryption of x. */
    ghost predicate Unmixes(keys: seq<T>, x: T, r: nat)
      requires 1 <= r <= |keys|
    {
      unmix(mix(Substituted(keys, x, r))) == Substituted(keys, x, r)
    }

    /** Whether decryption finds, before it undoes round r, the state that encryption had. */
    ghost predicate Retraces(keys: seq<T>, x: T, r: nat)
      requires 1 <= r < |keys|
    {
      Back(keys, Encrypt(keys, x), r) == Substituted(keys, x, r)
    }

    lemma StepBack(keys: seq<T>, x: T, r: nat)
      requires Peels(keys) && 1 <= r && r + 1 < |keys| && Retraces(keys, x, r + 1)
      ensures Back(keys, Encrypt(keys, x), r) == unmix(mix(Substituted(keys, x, r)))
    {
      assert unsubstitute(Back(keys, Encrypt(keys, x), r + 1)) == After(keys, x, r);
      assert keys[r] in keys;
    }

    /** Decryption goes back through the very states of encryption down to round r
        exactly when unmix undoes mix in each of those rounds. */
    lemma {:induction false} RetracesIff(keys: seq<T>, x: T, r: nat)
      requires Peels(keys) && 1 <= r < |keys|
      ensures (forall q | r <= q < |keys| :: Retraces(keys, x, q))
         <==> (forall q | r <= q < |keys| - 1 :: Unmixes(keys, x, q))
      decreases |keys| - r
    {
      if r == |keys| - 1 {
        assert Retraces(keys, x, r);
      } else {
        RetracesIff(keys, x, r + 1);
        if Retraces(keys, x, r + 1) {
          StepBack(keys, x, r);
          assert Retraces(keys, x, r) <==> Unmixes(keys, x, r);
        }
      }
    }

    lemma RetracingDecrypts(keys: seq<T>, x: T)
      requires Peels(keys) && 2 <= |keys| && Retraces(keys, x, 1)
      ensures Decrypt(keys, Encrypt(keys, x)) == x
    {
    }

    /** If every layer is undone then decryption undoes encryption. */
    lemma DecryptUndoesEncrypt(keys: seq<T>, x: T)
      requires Peels(keys) && 2 <= |keys|
      requires forall s: T :: unmix(mix(s)) == s
      ensures Decrypt(keys, Encrypt(keys, x)) == x
    {
      RetracesIff(keys, x, 1);
      assert Retraces(keys, x, 1);
      RetracingDecrypts(keys, x);
    }

    /** Whether round r of the encryption of x mixes the state z. */
    ghost predicate Mixes(keys: seq<T>, x: T, z: T, r: nat)
      requires 1 <= r <= |keys|
    {
      Substituted(keys, x, r) == z
    }

    /** When unmix undoes mix on the state z only: what a caller can look at to see
        that rounds 1 to r all mix z, where f is the state that substitute sends to z. */
    ghost predicate Frozen(keys: seq<T>, x: T, f: T, r: nat)
      requires r <= |keys|
    {
      r >= 1 ==> addKey(x, keys[0]) == f && forall q | 1 <= q < r :: keys[q] == f
    }

    lemma {:induction false} FrozenIff(keys: seq<T>, x: T, z: T, f: T, r: nat)
      requires r <= |keys|
      requires forall s: T :: substitute(s) == z <==> s == f
      requires forall k: T :: addKey(mix(z), k) == k
      ensures Frozen(keys, x, f, r) <==> forall q | 1 <= q <= r :: Mixes(keys, x, z, q)
    {
      if r >= 1 {
        FrozenIff(keys, x, z, f, r - 1);
        assert Mixes(keys, x, z, r) <==> After(keys, x, r - 1) == f;
        if r >= 2 {
          assert Frozen(keys, x, f, r) <==> Frozen(keys, x, f, r - 1) && keys[r - 1] == f;
          if Mixes(keys, x, z, r - 1) {
            assert After(keys, x, r - 1) == keys[r - 1];
          }
        }
      }
    }

    /** If unmix undoes mix on z only, then decryption retraces encryption exactly when
        there is a single round or every round mixes z. */
    lemma FrozenRetracesIff(keys: seq<T>, x: T, z: T, f: T)
      requires Peels(keys) && 2 <= |keys|
      requires forall s: T :: unmix(mix(s)) == s <==> s == z
      requires forall s: T :: substitute(s) == z <==> s == f
      requires forall k: T :: addKey(mix(z), k) == k
      ensures (forall q | 1 <= q < |keys| :: Retraces(keys, x, q)) <==> Frozen(keys, x, f, |keys| - 2)
    {
      var n := |keys| - 2;
      RetracesIff(keys, x, 1);
      FrozenIff(keys, x, z, f, n);
      if Frozen(keys, x, f, n) {
        forall q | 1 <= q < |keys| - 1
          ensures Unmixes(keys, x, q)
        {
          assert Mixes(keys, x, z, q);
        }
      }
      if forall q | 1 <= q < |keys| - 1 :: Unmixes(keys, x, q) {
        forall q | 1 <= q <= n
          ensures Mixes(keys, x, z, q)
        {
          assert Unmixes(keys, x, q);
        }
      }
    }

    /** When decryption has retraced encryption down to round 2, the block returns
        exactly if the mixing of round 1 is undone. */
    lemma FirstMixingDecides(keys: seq<T>, x: T)
      requires Peels(keys) && 3 <= |keys| && Retraces(keys, x, 2)
      requires forall s: T :: substitute(unsubstitute(s)) == s
      ensures Decrypt(keys, Encrypt(keys, x)) == x <==> Unmixes(keys, x, 1)
    {
      StepBack(keys, x, 1);
      var back := Back(keys, Encrypt(keys, x), 1);
      assert keys[0] in keys;
      if Decrypt(keys, Encrypt(keys, x)) == x {
        assert unsubstitute(back) == addKey(addKey(unsubstitute(back), keys[0]), keys[0]) == After(keys, x, 0);
        assert back == Substituted(keys, x, 1);
      }
    }

    lemma {:induction false} FrozenTail(keys: seq<T>, x: T, z: T, f: T, r: nat)
      requires 2 <= r < |keys|
      requires forall s: T :: substitute(s) == z <==> s == f
      requires forall k: T :: addKey(mix(z), k) == k
      requires After(keys, x, 1) == f && forall q | 2 <= q < r :: keys[q] == f
      ensures Mixes(keys, x, z, r)
    {
      if r > 2 {
        FrozenTail(keys, x, z, f, r - 1);
        assert After(keys, x, r - 1) == keys[r - 1];
      }
    }

    /** If unmix undoes mix on z only and every round after the first mixes z, then the
        block returns exactly if the first round mixes z too. */
    lemma OneLiveRoundIff(keys: seq<T>, x: T, z: T, f: T)
      requires Peels(keys) && 3 <= |keys|
      requires forall s: T :: unmix(mix(s)) == s <==> s == z
      requires forall s: T :: substitute(s) == z <==> s == f
      requires forall k: T :: addKey(mix(z), k) == k
      requires forall s: T :: substitute(unsubstitute(s)) == s
      requires |keys| > 3 ==> After(keys, x, 1) == f && forall q | 2 <= q < |keys| - 2 :: keys[q] == f
      ensures Decrypt(keys, Encrypt(keys, x)) == x <==> addKey(x, keys[0]) == f
    {
      forall q | 2 <= q < |keys| - 1
        ensures Unmixes(keys, x, q)
      {
        FrozenTail(keys, x, z, f, q);
        assert Mixes(keys, x, z, q);
      }
      RetracesIff(keys, x, 2);
      assert Retraces(keys, x, 2);
      FirstMixingDecides(keys, x);
    }
  }
}
