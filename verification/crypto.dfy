/** The cryptographic primitives the services call, idealised.

    SHA-256 (FIPS 180-4, section 6.2) and bcrypt are modelled as injective
    uninterpreted functions: each is a free datatype constructor, so two
    digests are equal exactly when their inputs are, and nothing else about
    them is known. A JSON Web Token is modelled by the claims it carries;
    signing and base64url encoding are abstracted away. */
module Crypto {
  import opened Wrappers

  /** `hashlib.sha256(password.encode()).hexdigest()`. */
  datatype PasswordDigest = Sha256OfPassword(password: string)

  /** A bcrypt hash string: the salt it embeds and the hashed input. */
  datatype BcryptHash = Bcrypt(salt: nat, input: PasswordDigest)

  /** `bcrypt.hashpw(input, salt)`. */
  function HashPw(input: PasswordDigest, salt: nat): BcryptHash {
    Bcrypt(salt, input)
  }

  /** `bcrypt.checkpw(input, hashed)`: re-hash the input with the salt taken
      from `hashed` and compare. */
  function CheckPw(input: PasswordDigest, hashed: BcryptHash): (ok: bool)
    ensures ok <==> hashed.input == input
  {
    HashPw(input, hashed.salt) == hashed
  }

  /** The claims of a decoded JWT payload; an absent claim is `None`. */
  datatype Payload = Payload(sub: Option<string>, role: Option<string>, exp: Option<int>)

  /** An encoded JWT, represented by the payload it was signed over. */
  datatype Token = Jwt(payload: Payload)

  /** `hashlib.sha256(token.encode()).hexdigest()`. */
  datatype TokenDigest = Sha256OfToken(token: Token)

  /** `jwt.encode(claims, SECRET_KEY, ALGORITHM)`. */
  function JwtEncode(payload: Payload): Token {
    Jwt(payload)
  }

  /** `jwt.decode(token, ...)` for a token this service issued. */
  function JwtDecode(token: Token): Payload {
    token.payload
  }

  /** Decoding undoes encoding. */
  lemma DecodeEncode(p: Payload)
    ensures JwtDecode(JwtEncode(p)) == p
  {
  }

  /** The digest of a token is deterministic and identifies the token. */
  lemma TokenDigestInjective(a: Token, b: Token)
    ensures Sha256OfToken(a) == Sha256OfToken(b) <==> a == b
  {
  }
}
