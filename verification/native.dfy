/**
 * Opaque tokens for the native objects SDL, SDL_image and SDL_mixer hand back.
 * Nothing is known about them except their identity.
 */
module Native {

  /** An `SDL_Texture*`. */
  datatype TextureHandle = TextureHandle(id: nat)

  /** A `Mix_Chunk*` audio sample. */
  datatype ChunkHandle = ChunkHandle(id: nat)

  /** An `SDL_GameController*`. */
  datatype ControllerHandle = ControllerHandle(id: nat)

  /** What a successful native load hands back: the new native object and the decoded image size. */
  datatype NativeLoad = NativeLoad(handle: nat, width: int, height: int)
}
