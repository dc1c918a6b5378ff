/** The pieces of the game-framework protocol that the adapters return. */
module Spiel {

  /** `current_player()`: a seat number, or the framework's TERMINAL sentinel once the game is over. */
  datatype PlayerId = Player(index: int) | Terminal

}
